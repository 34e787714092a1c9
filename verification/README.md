# Verified model of the rvnsyncpoint readers

rvnsyncpoint reads the traces that a recording hypervisor leaves behind. This project models two of its
readers in Dafny, from the bytes of the files up, and proves what they deliver.

**Synchronization traces.** A trace is a header of 1024 bytes followed by records of one fixed size. Each
record is a *point*: a VMEXIT, an INTERRUPT or a VMENTER with the machine state at that moment. `SyncFile`
is the cursor: `Next` decodes a record and skips records equal to the one before, `FetchNewEvent` parses
points into raw events (`VMEXIT INTERRUPT{0,2} VMENTER`, with a repair for a missing first VMEXIT and a
truncated tail), `CurrentEvent` merges runs of events without effect by looking ahead and seeking back, and
`AdvanceTo` rebuilds an event by walking backwards. The specification is a list function:
`Reported(RawEvents(Dedup(points)))`, where `Dedup` keeps the heads of runs of equal records, `RawEvents`
parses and `Reported` merges maximal runs.

**Hardware traces.** Variable-length records behind a 12-byte header. `HardwareFile` reads them and offers
bookmarks; the reorder tool rewrites a trace in time-stamp order.

| file | contents |
|---|---|
| `Bytes.dfy` | little-endian integers in byte sequences, zero fill, round trip |
| `StreamableFile.dfy`, `StreamableOutfile.dfy` | the two stream classes |
| `HardwareAccess.dfy`, `HardwareFile.dfy`, `ReorderHardware.dfy` | record codec, cursor with bookmarks, the reorder tool |
| `SyncPoint.dfy`, `SyncEvent.dfy` | points, their comparisons and byte layout; events and their checks |
| `SyncTrace.dfy` | the stream of points without adjacent duplicates |
| `EventParser.dfy`, `EventCoalescing.dfy` | one raw event; runs of raw events and their merging |
| `SyncRecordReader.dfy`, `SyncTraceFile.dfy`, `SyncFile.dfy` | reads of one record, what a trace file holds, the cursor class |
| `SyncTraceEncoding.dfy` | a reference writer for version 3 traces and their data files, which the reader inverts |
| `DumpSyncEvents.dfy`, `WholeTrace.dfy` | the event loop and the theorems over whole traces |
| `EndlessDump.dfy` | what the event loop does on the traces on which it does not come to an end |
| `RandomAccess.dfy`, `RepeatedExit.dfy` | going back to an event, and to one whose VMEXIT was recorded more than once |
| `EventMeaning.dfy` | what the reported events say, in terms of the records of the file |
| `Moves.dfy`, `Interleaving.dfy` | what is reported after any move of the cursor; what any list of operations keeps |
| `Examples.dfy` | concrete traces on which a reader does not do what one expects |

## Assumptions on a trace

`Openable` collects them: version 3, a record size of at least 201, whole records only, and points that are
`Plausible` (a nonzero time stamp and some nonzero register among those that event contexts compare). The
raw type 0xfe never comes without the interrupt bit; `LeftoverVectorMatters` says exactly what such a record
would change. Data blocks, where a record refers to some, end inside the data file, or there is no data file.
`TraceRoundTrip` writes the two files for any such list of records, data blocks included, as long as 32-bit
offsets reach the blocks, so the assumptions can be met by all of them.
Nothing is assumed about the order of the points: malformed scenarios are part of the model, and their
exceptions are `Failure` results. Integers in files are little-endian; 64-bit positions wrap around.

## Where the code differs from the expected behaviour

- A trace whose last event waits for another one to merge with (no interrupt, equal contexts, position not
  1) makes the lookahead return a default event with position 0, and the seek back wraps to 2^64 - 1. The
  event is reported correctly but the cursor leaves the trace. `CursorKept` states this as an if and only if.
  What follows depends on the record size. Above 512 bytes the seek is refused, every read gives zeros and the
  next `next()` does not return: `DumpSticksBehindTrace`. With a blank header that has room for two records
  (the usual 256 bytes), the zeros in the header are skipped as equal records and the dump starts over from
  the first record, again and again: `DumpStartsOver`, and `NeutralLastEventRepeats` on a trace of four points.
- If no VMEXIT follows the cursor, `current_event` loops forever at the end of the file, unless the cursor is
  at position 0 of a trace of one record, where it returns an event of zeros. `Returns` is the exact
  condition: under it `CurrentEvent` is proved to return, without it `MergeStrays` makes as many iterations as
  one likes, and `ReturnsExactlyWhen` is the if and only if. `DumpSticksInStrays` is the whole dump of such a
  trace, with `TrailingInterruptsAreStrays` as an instance.
- `Ends` is the guard the event loop needs: neither of the two. `DumpEvents` covers the traces that satisfy
  it, and `DumpStartsOver`, `DumpSticksBehindTrace` and `DumpSticksInStrays` the others, but for a last event
  that waits in vain in a trace with records of at most 512 bytes whose header is not blank or has no room for
  two records: there the cursor reads the header's bytes as records.
- After a repeated VMEXIT record, `advance_to` reloads the event from a later copy of that record than
  sequential reading did: `WalkBackFindsEvent` says when. Behind position 1 the event differs in position, FPU
  words and the record's data only, and the cursor rests in the same place. The first event of a trace is
  exempt from merging because of its position, but its copy is not: depending on the event behind it
  (`ReloadOf`), `advance_to` then reports the copy's event, puts the cursor in front of the next one, reports
  a later one that it merged into, throws an exception, or loses the cursor (`RepeatedExitReloads`, `ReloadRepeated`;
  `RepeatedExitMergesExample`, `RepeatedExitLosesTrack`).
- So `Ends` is not enough for random access. `Perform` keeps the cursor on the trace over any list of
  operations when the last event waits in vain from no position on, and `LoseTrack` shows that this is needed.
  On a trace without an exception, that condition fails exactly when the last event waits in vain as it is, or
  when the trace has one event only, without effect, that begins at the first record and has its VMEXIT
  repeated: `WaitsSomewhereExactly`, with `RepeatedExitExample` as an instance of the second.
- `seek(0)` and `seek_from_end` leave the cached event in place, and `current_event` reports it although the
  cursor is elsewhere. `MoveAndReport` says for every move which event is reported, `RewindReportsOld` shows
  it on every trace, and `RewindShowsSecondEvent` on a trace of four points.

## Model

| member | source | states |
|---|---|---|
| StreamableFiles.StreamableFile.ReadRaw | include/streamable_file.h:65-72 | the buffer holds the bytes at the get position, zeros behind the end; end of file is set exactly by a read that goes past the end, and stays |
| StreamableFiles.StreamableFile.Seek | include/streamable_file.h:27-33 | clears end of file; a position that is negative as a stream offset is refused, without end of file being set |
| StreamableFiles.StreamableFile.ReadVector | include/streamable_file.h:125-136 | a byte vector from any stream state, consuming its prefix and its items |
| StreamableFiles.VectorIsBounded | include/streamable_file.h:125-136 | with r bytes left, a declared size s gives min(s, r + 1) items; if they all are in the file, they are its bytes |
| Bytes.FilledBuffer | include/streamable_file.h:74-78 | an integer read through a buffer is the integer that stands in the file |
| Bytes.UintRoundTrip | include/streamable_outfile.h:38-42 | an integer of any width written by the out-stream reads back, wherever it stands |
| Bytes.LittleEndian | include/streamable_file.h:74-78 | integers of 2, 4 and 8 bytes have their least significant byte first |
| StreamableOutfiles.StreamableOutfile.WriteVector | include/streamable_outfile.h:84-92 | appends the 8-byte size and then the items |
| HardwareAccesses.AccessOffsets | include/hardware_access.h:82-92 | where each field stands in a record, in bytes, and that a nonzero time stamp makes it valid |
| HardwareAccesses.AccessRoundTrip | include/hardware_access.h:87-92 | reading an encoded record restores every field and stops at the first byte after it |
| HardwareAccesses.StreamRoundTrip | include/hardware_access.h:87-92 | decoding an encoded list of accesses with nonzero time stamps returns the list, for any bytes before and after |
| HardwareAccesses.DecodedAreEncodable | include/streamable_file.h:125-136 | whatever the bytes, decoded accesses are valid and can be written again |
| HardwareFiles.HardwareFile.Load | src/hardware_file.cpp:13-46 | short file, wrong magic number, or ready behind the 12 header bytes |
| HardwareFiles.HardwareFile.Next | src/hardware_file.cpp:48-59 | the whole new state, from any state of the stream; delivers the remaining accesses in order, then an invalid one; a valid one can be returned to |
| HardwareFiles.HardwareFile.AdvanceTo | src/hardware_file.cpp:61-71 | the whole new state for every file position, including position 0, which reads nothing, and a refused seek, behind which zeros are read |
| HardwareFiles.HardwareFile.SyncWith | src/hardware_file.cpp:73-79 | takes over offset, position and current access but not the bookmark; syncing with a reader at its end leaves a refused seek |
| HardwareFiles.ReadOnAndReturn | src/hardware_file.cpp:48-71 | bookmark restore: after any number of further reads, returning to a bookmark restores the complete state, end of file included |
| ReorderHardware.StableSortIsStable | bin/reorder_hardware/reorder_hardware.cpp:26-30 | what the multimap holds is sorted by time stamp, a permutation, and keeps the order of equal time stamps |
| ReorderHardware.StableSortUnique | bin/reorder_hardware/reorder_hardware.cpp:26-30 | a list has only one stable sort |
| ReorderHardware.ReadAccesses | bin/reorder_hardware/reorder_hardware.cpp:28-30 | the reading loop yields the stable sort of the accesses up to the first zero time stamp |
| ReorderHardware.WriteAccesses | bin/reorder_hardware/reorder_hardware.cpp:32-41 | the writing loop appends the encoding of the list, and its order check never fails |
| ReorderHardware.Reorder | bin/reorder_hardware/reorder_hardware.cpp:19-43 | the tool, for every input file: the reordered file, or the exception for a wrong magic number |
| ReorderHardware.EncodedFileDecodes | bin/reorder_hardware/reorder_hardware.cpp:28-30 | from a correctly encoded file, the longest prefix with nonzero time stamps is read |
| ReorderHardware.ReorderedIsStableSort | bin/reorder_hardware/reorder_hardware.cpp:19-43 | for every input, the output begins with the magic number and version 0 and decodes to the stable sort of the input's accesses |
| ReorderHardware.ReorderIdempotent | bin/reorder_hardware/reorder_hardware.cpp:19-43 | running the tool on its own output reproduces it byte for byte, for every input |
| SyncPoints.PointRoundTrip | src/sync_file.cpp:384-391 | raw types by number: 0x100 and a vector is an interrupt with that vector, any other type keeps the vector held before, higher bits do not count, and every other field is taken over |
| SyncPoints.KindsByNumber | include/sync_point.h:170-178 | 0xfe is an INTERRUPT, 0xff a VMENTER, anything else a VMEXIT; a nonzero time stamp makes a point valid |
| SyncPoints.FieldOffsets | src/sync_file.cpp:367-376 | where each field stands in a record, in bytes |
| SyncPoints.SameMeans | src/sync_point.cpp:153-163 | equal points are those that differ in FPU words and data at most |
| SyncPoints.EquivalentMeans | src/sync_point.cpp:165-172 | equivalent points are those with one machine state; equal points are equivalent |
| SyncPoints.LeftoverVectorMatters | src/sync_file.cpp:384-391 | a vector left over from earlier records changes a duplicate decision if and only if a type 0xfe without interrupt bit precedes an otherwise equal interrupt |
| SyncPoints.SkipsIsHistoryFree | src/sync_file.cpp:384-391 | without such records, duplicate decisions and delivered points depend on the records only |
| SyncEvents.ValuesEquivalentMeans | src/sync_event.cpp:107-113 | equivalent contexts differ in FPU words and time stamp at most |
| SyncEvents.SanityMeans | src/sync_event.cpp:124-136 | the checks pass exactly when the three rules on interrupts hold |
| SyncTraces.DedupIsTheHeads | src/sync_file.cpp:350-418 | the delivered points are exactly the heads of maximal runs of equal records, in order, with their positions |
| SyncTraces.SkippedEqualsDelivered | src/sync_file.cpp:418 | every skipped record equals the delivered one before it |
| SyncTraces.RestAfter | src/sync_file.cpp:448-469 | reading on from the k-th remaining point, or from just in front of it, delivers the points behind it, or it and them |
| EventParser.ParseAccepts | src/sync_file.cpp:223-336 | points that start with a sentence of the grammar give its event, field by field from the points and with the exit reasons by number (context registers, start reason, emulation, interrupt, data of VMEXIT, first interrupt and VMENTER), or the check that fails |
| EventParser.ParsedIsEvent | src/sync_file.cpp:223-336 | a complete event always comes from a sentence of the grammar that passes the checks |
| EventParser.ParseTruncates | src/sync_file.cpp:229-267 | the truncated-tail rule applies exactly when the trace ends inside a sentence, and the event keeps what was read: registers, reason and data of the VMEXIT, and vector, rip, error code and data of a first interrupt |
| EventParser.RefusesDuplicate | src/sync_file.cpp:257-266 | the exception for a repeated interrupt, and its position, exactly when two interrupts in a row differ in the machine state |
| EventParser.RefusesOtherContext | src/sync_file.cpp:276-286 | the exception for another context, exactly when the point behind the interrupts differs from the first of them |
| EventParser.RefusesMissingEnter | src/sync_file.cpp:325-331 | the exception for a missing VMENTER, exactly when the closing point is of another type |
| EventParser.RefusesInsane | src/sync_event.cpp:124-136 | a complete sentence is refused exactly for the first of the three rules its points break, by number |
| EventParser.FetchStarts | src/sync_file.cpp:189-221 | fetching parses from the first VMEXIT on, or from position 1 when the point there is none; without such a place there is no event |
| EventParser.FetchAccepts | src/sync_file.cpp:189-336 | a complete event is fetched if and only if an accepted sentence stands at the first VMEXIT, or at position 1 when that VMEXIT is missing |
| EventParser.FetchFromExit | src/sync_file.cpp:196-202 | points in front of the first VMEXIT do not influence the event |
| EventCoalescing.RunsPartition | src/sync_file.cpp:173-183 | the runs behind the reported events concatenate to the raw events, none lost or repeated |
| EventCoalescing.RunsAreMaximal | src/sync_file.cpp:173-183 | every run is linked, and no two neighbouring runs could be one |
| EventCoalescing.RunsByFields | src/sync_file.cpp:173-178 | field by field: neighbours within a run are behind position 1, without interrupt, emulation or change of a compared register, at the same rip and with matching contexts, and the last event of one run and the first of the next are not |
| EventCoalescing.CoalesceMergesRuns | src/sync_file.cpp:173-183 | one event is reported for each run: its last, with the start context of its first |
| EventCoalescing.MergedRunIsItsLastEvent | src/sync_file.cpp:173-183 | the merged event differs from the last of its run in unobserved parts of the start context only; the others are interrupt-free, non-emulating, neutral and start at the same rip |
| EventCoalescing.PutBack | src/sync_file.cpp:180 | after a lookahead is undone, the same raw events are read again and the cursor is still behind the reported event |
| EventCoalescing.FetchInTrace | src/sync_file.cpp:189-336 | a complete event ends on a VMENTER of the trace and what remains is what follows it |
| SyncRecordReader.ReadFields | src/sync_file.cpp:367-376 | the fields in stream order are the record at the offset, in 201 bytes |
| SyncRecordReader.ReadBlocks | src/sync_file.cpp:395-412 | the data blocks at an offset; terminates for every data file, and meets its end exactly when the list does not end inside it |
| SyncTraceEncoding.RecordRoundTrip | src/sync_file.cpp:367-411 | a record written field by field in stream order and padded to the record size is read back exactly, with its data blocks: no two fields overlap |
| SyncTraceEncoding.BlocksRoundTrip | src/sync_file.cpp:398-411 | a list of data blocks of any lengths is read back, up to its terminating type, wherever it stands |
| SyncTraceEncoding.TraceRoundTrip | src/sync_file.cpp:22-108 | the two files written for any list of plausible records, data blocks included, hold exactly their points and meet every assumption |
| SyncTraceEncoding.PointsRoundTrip | src/sync_file.cpp:367-413 | the files written for any list of plausible points are read as that list |
| SyncTraceEncoding.FormatByNumber | include/sync_file.h:10-12 | magic numbers, version and sizes of the files, by number |
| SyncTraceEncoding.RecordByNumber | src/sync_file.cpp:461-464 | the i-th record stands behind 1024 bytes and i records |
| SyncTraceFiles.ReadHeader | src/sync_file.cpp:22-69 | for every file: too short, wrong magic number, unknown version, or recognised with its version and record size; all but the last are closed |
| SyncTraceFiles.ReadDataHeader | src/sync_file.cpp:84-105 | for every data file, missing ones included: recognised, or both files are closed |
| SyncTraceFiles.CountRecords | src/sync_file.cpp:71-74 | for every nonzero record size, the count computed from the size of any file is the number of whole records; below the header size the 64-bit difference wraps |
| SyncTraceFiles.WrapOffset | src/sync_file.cpp:461-464 | the file offset of a seek to position 2^64 - 1 in 64-bit arithmetic: two records in front of the first |
| SyncFiles.SyncFile.Load | src/sync_file.cpp:48-107 | for a recognised trace that holds a list of points, the cursor invariant holds at position 0 and all records are counted |
| SyncFiles.SyncFile.ReadPoint | src/sync_file.cpp:367-413 | one iteration consumes exactly the record size and decodes the record, with the previous vector left over for non-interrupts |
| SyncFiles.SyncFile.Next | src/sync_file.cpp:338-424 | delivers the head of the remaining points and drops it from them; at the end every record is counted; forgets the cached event; keeps the cursor invariant; from the lost states in front of the trace, the first record |
| SyncFiles.SyncFile.FetchNewEvent | src/sync_file.cpp:189-336 | fetches what the list specification finds in the current and the remaining points, and leaves the cursor on the closing VMENTER, at the end with its last position, or on the point where the exception arose |
| SyncFiles.SyncFile.FetchBody | src/sync_file.cpp:240-336 | the part behind the VMEXIT: interrupts, duplicated interrupts, exceptions and the closing VMENTER |
| SyncFiles.FinishEvent | src/sync_file.cpp:280-335 | new context, emulation by exit reason, and the final checks |
| SyncFiles.SyncFile.Seek | src/sync_file.cpp:448-469 | from any prior state, the record at the position is current and the future is that of the position; past the end, at the end; at 2^64 - 1, off the trace |
| SyncFiles.SyncFile.SeekBack | src/sync_file.cpp:179-182 | undoing the lookahead leaves exactly the raw events behind the reported run to come |
| SyncFiles.SyncFile.MergeNext | src/sync_file.cpp:173-183 | one iteration of the merging loop: the next raw event joins the run, or it is put back and the run is maximal, or an exception; at the end of the file the event found there always joins |
| SyncFiles.SyncFile.CurrentEvent | src/sync_file.cpp:153-187 | returns whenever `Returns` holds: a cached event again; otherwise the first maximal run, merged, or the exception; the cursor rests behind it, unless the event waits for a next one that does not exist |
| SyncFiles.SyncFile.AdvanceTo | src/sync_file.cpp:431-446 | reloads the event a VMENTER closes from the last VMEXIT in front of it, or just moves; only a move to 0 keeps the cached event |
| SyncFiles.SyncFile.SeekFromEnd | src/sync_file.cpp:471-482 | for every distance, where the 64-bit arithmetic puts the stream and the position; inside the trace, the position counted from the end; no current point, and the cached event untouched |
| DumpSyncEvents.DumpEvents | bin/dump_sync_events/dump_sync_events.cpp:18-20 | whole-run refinement: under the guard `Ends`, the loop shows exactly the merged maximal runs of the raw events of the points without duplicates, up to an exception; without one the position ends at the number of records |
| WholeTrace.RawEventsReopen | src/sync_file.cpp:431-446 | every raw event of a trace, and those behind it, are found again from the position it reports |
| WholeTrace.RawPositionsIncrease | src/sync_file.cpp:204 | raw events start at strictly increasing positions |
| WholeTrace.ReportedPositionsIncrease | src/sync_file.cpp:173-183 | so do the events of a dump |
| WholeTrace.ReportedEventsAreSane | src/sync_event.cpp:124-136 | every event a dump shows keeps the promises of the checks, merged or not, in terms of the trace's points: rip and cr2 of its VMEXIT and of the closing VMENTER |
| WholeTrace.RawEventSays | src/sync_file.cpp:204-335 | every raw event of a trace has the start of the point at its position and the registers of the first VMENTER from there on |
| EventMeanings.ReportedFromRecords | src/sync_file.cpp:125-151 | every complete event reported of a list of records, register by register: new context of the first VMENTER record from its start on, start context of the record its run starts at, rip, reason and emulation of its own |
| EventMeanings.DumpWritten | bin/dump_sync_events/dump_sync_events.cpp:18-20 | end to end, from the records a file was written for to the events a dump shows |
| WholeTrace.CursorKept | src/sync_file.cpp:173-183 | after a complete event the cursor is at its resting position if and only if the event does not wait for a missing next one |
| EndlessDumps.ReturnsExactlyWhen | src/sync_file.cpp:173-202 | current_event returns if and only if an event can start at a point ahead, or the merging loop begun without an event has a last iteration |
| EndlessDumps.MergeStrays | src/sync_file.cpp:173-202 | when it does not return, the loop on the reader makes any number of iterations, each finding the same event, with its condition still true |
| EndlessDumps.DumpRound | bin/dump_sync_events/dump_sync_events.cpp:18-20 | on every trace, the first events shown are those of `Reported`, whether or not the loop ends; the last one stays cached |
| EndlessDumps.DumpStartsOver | bin/dump_sync_events/dump_sync_events.cpp:18-20 | if the last event waits in vain and the header is blank, the loop shows the whole trace as many times as one likes |
| EndlessDumps.SkipRefused | src/sync_file.cpp:350-418 | after a refused seek the loop in next() makes any number of iterations |
| EndlessDumps.DumpSticksBehindTrace | src/sync_file.cpp:179-182 | if the last event waits in vain and records are longer than 512 bytes, the trace is shown once and then next() does not return |
| EndlessDumps.DumpSticksInStrays | bin/dump_sync_events/dump_sync_events.cpp:18-20 | if no VMEXIT follows the last event, the trace is shown, one more point is read, and current_event does not return |
| RandomAccess.WalkBackFindsEvent | src/sync_file.cpp:438-444 | walking back from where the cursor rests finds the VMEXIT of the event if and only if that VMEXIT is not repeated |
| RandomAccess.RandomAccessAgrees | src/sync_file.cpp:431-446 | reading again from there reports the same event, up to unobserved parts of the start context of a merged run, with the same events to come and the same resting position |
| RandomAccess.EventRestsBehind | src/sync_file.cpp:173-183 | every complete raw event of a trace closes on a VMENTER behind which the cursor can be found again |
| RandomAccess.EventRestsPutBack | src/sync_file.cpp:179-182 | so it can when it is put in front of the next raw event |
| RandomAccess.EveryEventRests | src/sync_file.cpp:431-446 | for every event of a whole trace that is complete and does not wait in vain, when the sequential run rests on a VMENTER, that position is one to which `Revisit` or `ReloadRepeated` applies |
| RandomAccess.Revisit | src/sync_file.cpp:431-446 | from any prior state of the reader that has not read past the end of its data file, advance_to such a position has the same event cached, up to unobserved parts of a merged start context, and the same events to come |
| RandomAccess.RevisitEvent | src/sync_file.cpp:431-446 | the same for the i-th event of a whole trace and the position the sequential run rests at behind it, if the event is complete, does not wait in vain, closes where the run rests on a VMENTER, and its VMEXIT is not repeated |
| RepeatedExits.RepeatedExitMovesEvent | src/sync_file.cpp:438-444 | with a repeated VMEXIT the walk back stops at a later record equal to it; the raw event read there differs in position, FPU words and that record's data only, and the raw events behind it are the same |
| RepeatedExits.RepeatedExitReloads | src/sync_file.cpp:431-446 | behind position 1 the event read again stands alone and the cursor rests where it did; at position 1 it stands alone, is put back, merges with the next event, throws or loses the cursor, decided by whether the copy's event waits and whether the next one joins |
| RepeatedExits.ReloadRepeated | src/sync_file.cpp:431-446 | the same on the reader, from any prior state: what advance_to reports in each of these cases, and where the cursor is |
| RandomAccess.SeekFromEndAndRead | src/sync_file.cpp:471-482 | seeking k from the end and reading is a forward seek to record n - k, from any prior state |
| Moves.MoveAndReport | src/sync_file.cpp:431-482 | after a move to any record, to 0, behind the end or from the end, the event reported is the one cached before, if there was one and the move was to 0 or from the end; otherwise what the trace and the target determine |
| Moves.RewindReportsOld | src/sync_file.cpp:455-459 | on every trace, after any number of shown events that leave the cursor on it and a move to 0, the last event shown is reported although the first is next |
| WholeTrace.SuffixHasTail | src/sync_file.cpp:189-202 | on a stream without an exception, reading on from any later point finds the raw events of the stream from some index on, if it finds a VMEXIT |
| Interleavings.Perform | src/sync_file.cpp:338-482 | cursor invariant: over any list of next, current_event, advance_to and seek_from_end the cursor stays on the trace, and while not at the end the stream stands behind the record at the position, if the last event waits in vain from no position on |
| Interleavings.LoseTrack | src/sync_file.cpp:173-181 | where it does wait in vain from some position on, seek_from_end, next and current_event lose the cursor |
| Interleavings.WaitsSomewhereExactly | src/sync_file.cpp:174-180 | on a trace without an exception it does so from some position on if and only if it does from the start, or the only event is without effect and begins at a repeated VMEXIT at record 1 |
| Examples.NeutralLastEventRepeats | src/sync_file.cpp:174-180 | two exits without effect: the dump shows their two events over and over |
| Examples.RewindShowsSecondEvent | src/sync_file.cpp:455-459 | two exits, the second with an effect: after a move to 0 the second event is reported |
| Examples.TrailingInterruptsAreStrays | src/sync_file.cpp:196-202 | four plausible points that end in interrupts which no VMEXIT follows |
| Examples.RepeatedExitExample | src/sync_file.cpp:438-444 | three plausible points whose dump ends, while the event read from the second copy of the VMEXIT waits in vain |
| Examples.RepeatedExitLosesTrack | src/sync_file.cpp:431-446 | on the reader, advance_to the only VMENTER of that trace loses the cursor |
| Examples.RepeatedExitMergesExample | src/sync_file.cpp:438-444 | five points on which the event read from the second copy merges into the next one |

## Left out

- Printers and type names: formatting only.
- Opening files by name, and the texts of the exceptions.
- SyncFiles.SyncFile.Load: requires a trace that holds a list of points; what is rejected before is in `ReadHeader` and `ReadDataHeader`.
- SyncTraceFiles.CountRecords: requires a nonzero record size; the code divides by it without a test, so a recognised header with record size 0 is undefined behaviour.
- Record formats before version 3: the old reader leaves the interrupt vector of non-interrupt records unset.
- Truncated final sync records and data blocks that run past the data file: `Openable` excludes them; `ReadBlocks` and the stream classes still cover the reads themselves.
- `validate` and `last_valid_position`, the `record_size_ == 0` shortcut of the seeks, and the register checks behind `RVN_MACHINES_DEBUG_SYNC`.
- `io_file`, `device`, the string reader and the dump tools other than the event loop.
- Flag and conversion helpers of `hardware_access` (`has_type`, `to_uint64`): single expressions.
- SyncFiles.SyncFile.Next: requires a cursor on the trace or in front of it in a blank header; after a refused seek it does not return (`SkipRefused`).
- SyncFiles.SyncFile.CurrentEvent: requires `Returns`, the exact condition under which it returns (`ReturnsExactlyWhen`).
- SyncFiles.SyncFile.Seek: positions whose file offset does not fit a signed 64-bit stream offset are left out, but for 2^64 - 1, because there the arithmetic wraps to an offset that is no record's.
- SyncFiles.SyncFile.AdvanceTo: the same positions are left out.
- Moves.MoveAndReport: with no cached event, distances of at least the number of records and targets from which current_event does not return are left out.
- Interleavings.Perform: a call of current_event that would not return is left out of the list as it runs; on a trace with an exception the condition is not reduced to one on the whole trace.
- DumpSyncEvents.DumpEvents: requires `Ends`. Of the traces without it, those are left out whose last event waits in vain and whose record size is at most 512 with a header that is not blank or has no room for two records: there the bytes of the header are read as records.
- HardwareFiles.HardwareFile: fields the C++ struct leaves uninitialised start at zero.
- The multimap of the reorder tool is a sequence kept in order; the container's own structure is not modelled.
- File sizes are below 2^63 bytes, and a file does not change while it is read.
