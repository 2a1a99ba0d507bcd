# Event log of the mirbft test engine, modelled in Dafny

The mirbft simulation test engine drives a replica with events ordered by
logical time. The events live in `testengine/eventlog.go`, in an `EventLog`:

- a doubly linked list of `EventLogEntry`;
- a cursor, `NextEventLogEntry`, at the first event not yet consumed;
- `LastConsumed`, the entry handed out last;
- a logical clock, `FakeTime`.

The log does three things:

- `Insert` places a new event before the first pending event strictly later than it, or at the end. On a time-sorted log that is after every pending event not later than it. `ReadEventLog` does not check the order. The typed helpers schedule an event `fromNow` ticks after the clock.
- `ConsumeAndAdvance` hands out the event under the cursor and moves the clock to its time.
- `Write` records a scenario as length-prefixed frames: a header with the name, the description and the sorted node ids, then the consumed events. `ReadEventLog` rebuilds a log from such a recording, with the cursor back at the head.

The model is organised as follows:

- `wrappers.dfy`: `Option` and `Result`.
- `varint.dfy`: Go's `binary.PutVarint`/`ReadVarint`, byte for byte. This is base-128 groups with ZigZag for signed values, a 10-byte limit and an overflow check on the tenth byte. It also holds the wrap-around `uint64` sum the helpers compute.
- `records.dfy`: events, scenario headers and log records. It also holds the protobuf codec as a pair of function values.
- `framing.dfy`: `writePrefixedProto` and the frame reading of `ReadEventLog` (the varint, then `io.CopyN`). The writer is a byte sequence plus the index of the first `Write` call that fails and how many bytes of its chunk that call still accepts.
- `schedule.dfy`: the order the log keeps, on plain sequences:
  - where `Insert` puts an event, and what that placement preserves;
  - the sorted distinct targets that `NodeConfigs` derives.
- `scenario.dfy`: what `Write` emits and what `ReadEventLog` accepts, as functions of bytes, with the write-then-read round trip.
- `arena.dfy`: the linked list as an arena. Entry `j` holds `entries[j]` and the links `next[j]` and `prev[j]`. A ghost `order` lists the arena indices from the head on. Lemmas show that each pointer rewiring the source performs inserts one entry at the intended position.
- `logstate.dfy`: how the arena, the cursor, `LastConsumed` and `FakeTime` fit together (`Consistent`). Each of the methods' transitions preserves it.
- `eventlog.dfy`: the class `EventLog` with the source's fields and the methods listed below, plus `ReadEventLog`.
  - The ghost fields `log` (the events in list order) and `consumed` (the cursor's position) carry the contracts.
  - Every method that changes the log names exactly the fields it assigns in `modifies`. Every other field is therefore unchanged by construction.

## Model

| member | source | states |
|---|---|---|
| Varint.PutUvarint | testengine/eventlog.go:46 | the length prefix is base-128 little-endian: every byte but the last has the continuation bit set, the last clears it |
| Varint.ReadUvarint | testengine/eventlog.go:118 | a successful read yields a value below 2^64 from 1 to 10 bytes of the input; end of stream is reported exactly when the input is empty |
| Varint.ReadUvarintFrom | testengine/eventlog.go:118 | a successful read yields a value below the remaining capacity, using between 1 and the remaining bytes; end of stream is reported exactly when no byte at all is available |
| Varint.ReadPutUvarint | testengine/eventlog.go:46 | reading an encoded uint64 gives back the value and its length, whatever follows; no encoding exceeds 10 bytes |
| Varint.ReadTruncatedUvarint | testengine/eventlog.go:118-124 | every proper prefix of an encoding is an unexpected end of stream, never a shorter value |
| Varint.ZigZagRoundTrip | testengine/eventlog.go:46 | ZigZag decoding inverts the signed-to-unsigned mapping of PutVarint |
| Varint.ZigZag | testengine/eventlog.go:46 | the encoding of a signed length is even exactly when the length is not negative |
| Varint.UnZigZag | testengine/eventlog.go:118 | ZigZag decoding is a right inverse of the encoding |
| Varint.ReadPutVarint | testengine/eventlog.go:46 | ReadVarint inverts PutVarint on every int64, whatever follows |
| Varint.ReadVarint | testengine/eventlog.go:118-124 | a read value fits in int64 and takes 1 to 10 bytes; end of stream exactly on the empty stream |
| Varint.PutVarint | testengine/eventlog.go:46 | the signed varint length prefix is 1 to 10 bytes, every byte but the last with its continuation bit set |
| Varint.AddU64NotBefore | testengine/eventlog.go:244 | FakeTime + fromNow in wrap-around uint64 is not before FakeTime exactly when the sum does not overflow, and is then the true sum: the helpers trip Insert's past check only by overflowing |
| Varint.AddU64 | testengine/eventlog.go:244 | the uint64 sum FakeTime + fromNow is the exact sum below 2^64 and otherwise wraps around to the sum minus 2^64, which is below the clock |
| Framing.WritePrefixedProto | testengine/eventlog.go:39-56 | marshal failure writes nothing; success writes exactly the varint length followed by the bytes; a failing Write leaves a prefix of that frame; a writer that never fails never fails a marshalled record |
| Framing.Put | testengine/eventlog.go:47-53 | one Write call: it succeeds exactly when it is not the failing call; a successful call appends its whole chunk, a failing one a prefix of it; the call count goes up by one |
| Framing.PrefixedFrame | testengine/eventlog.go:46-54 | a frame is the varint length prefix followed by the message bytes |
| Framing.ReadFrame | testengine/eventlog.go:117-131 | end of frames exactly on the empty stream; a frame read returns a payload and the remaining suffix, both taken from the stream in place |
| Framing.ReadPrefixedFrame | testengine/eventlog.go:118-130 | reading a written frame gives back the marshalled bytes and leaves what follows untouched |
| Framing.ReadCutFrame | testengine/eventlog.go:118-130 | a stream cut anywhere inside a frame is a bad frame, never a normal end |
| Framing.ReadCutLength | testengine/eventlog.go:118-124 | a cut inside the length prefix is an unexpected end of the varint |
| Framing.ReadCutPayload | testengine/eventlog.go:128-130 | a cut after the prefix is a truncated payload |
| Schedule.InsertPosition | testengine/eventlog.go:283-307 | the walk from the cursor passes only events no later than the new one and stops at the first strictly later event, or at the end |
| Schedule.InsertPositionIs | testengine/eventlog.go:283-307 | those facts determine the walk's stopping point, in both directions |
| Schedule.Inserted | testengine/eventlog.go:261-308 | inserting adds exactly one event and leaves the consumed events before the cursor in place |
| Schedule.InsertAt | testengine/eventlog.go:286-297 | placing at p keeps every event before p, puts e at p and shifts the rest by one |
| Schedule.InsertAtEnd | testengine/eventlog.go:301-304 | placing at the end is appending |
| Schedule.InsertKeepsSorted | testengine/eventlog.go:261-308 | on a time-sorted log, inserting an event not earlier than the last consumed one keeps the log sorted |
| Schedule.InsertIsStable | testengine/eventlog.go:284-300 | on a time-sorted log, among the pending events exactly those no later than e end up before it: ties keep insertion order |
| Schedule.InsertOnlyAdds | testengine/eventlog.go:283-307 | the new event lands at or after the cursor, the consumed prefix is unchanged, the length grows by one, and removing e gives back the old log |
| Schedule.DistinctTargets | testengine/eventlog.go:59-71 | the first-seen list has no repeats and holds exactly the targets of the log |
| Schedule.InsertSorted | testengine/eventlog.go:73-75 | insertion into the id list adds exactly x (as a multiset) |
| Schedule.InsertSortedAscending | testengine/eventlog.go:73-75 | inserting into ascending ids keeps them ascending |
| Schedule.InsertSortedStrict | testengine/eventlog.go:73-75 | inserting a missing id into strictly ascending ids keeps them strictly ascending |
| Schedule.SortIds | testengine/eventlog.go:73-75 | sorting is a permutation into ascending order, strictly ascending when there are no repeats |
| Schedule.NodeIds | testengine/eventlog.go:58-78 | the node ids are strictly ascending and are exactly the targets of the log |
| Schedule.StrictlyAscendingUnique | testengine/eventlog.go:58-78 | a strictly ascending id list is determined by its members, so the node ids are the only possible answer |
| Schedule.NodeIdsExample | testengine/eventlog.go:58-78 | targets 5, 1, 3, 1, 5 give the node ids 1, 3, 5 |
| Scenario.EventRecords | testengine/eventlog.go:98-101 | one event record per event, in order |
| Scenario.ScenarioRecords | testengine/eventlog.go:81-101 | the header record comes first, then the event records in order |
| Scenario.WriteRecordsFrom | testengine/eventlog.go:80-108 | writing only appends to the writer, and a reported failure names one of the records being written |
| Scenario.WriteRecordsComplete | testengine/eventlog.go:80-108 | with a writer that never fails and records that all marshal, Write succeeds and emits exactly the concatenated frames |
| Scenario.WriteRecordsPrefix | testengine/eventlog.go:80-108 | whatever Write calls fail, what reaches the writer is a prefix of the complete recording |
| Scenario.ParseFrom | testengine/eventlog.go:117-179 | a successful read keeps the header's name and description and extends the events read so far; a missing scenario is reported only while no header has been read |
| Scenario.ParseScenario | testengine/eventlog.go:110-189 | a successful read starts with a frame that decodes to a scenario record, and the log's name and description are that record's |
| Scenario.ParseEventStep | testengine/eventlog.go:157-177 | an event frame after the header appends its event |
| Scenario.ParseHeaderStep | testengine/eventlog.go:144-155 | the first frame, a scenario header, starts the log |
| Scenario.ParseEventFrames | testengine/eventlog.go:117-179 | reading frames of event records appends their events in stream order |
| Scenario.WriteThenRead | testengine/eventlog.go:80-189 | with a writer that never fails and a codec that reads back its records, reading what Write emits succeeds and gives back the name, the description and the events in order |
| Scenario.EmptyStreamRejected | testengine/eventlog.go:181-183 | a stream with no bytes is rejected as having no scenario |
| Scenario.FirstEventRejected | testengine/eventlog.go:144-148 | a stream whose first record is an event is rejected |
| Scenario.UntypedRecordRejected | testengine/eventlog.go:139-141 | a record with a nil type is rejected wherever it occurs |
| Scenario.SecondScenarioRejected | testengine/eventlog.go:156-160 | a scenario record after the header is rejected |
| Scenario.NilEventRejected | testengine/eventlog.go:162-164 | after the header, an event record without an event is rejected |
| Scenario.CutStreamRejected | testengine/eventlog.go:118-130 | a stream that ends inside a frame is rejected as an unreadable frame |
| Arena.LinkFirst | testengine/eventlog.go:270-273 | a first entry becomes the whole list and its head |
| Arena.LinkAfterTail | testengine/eventlog.go:301-304 | setting the tail's Next and the new entry's Prev appends the new entry to the list |
| Arena.LinkBefore | testengine/eventlog.go:286-297 | the five pointer updates of the in-front case place the new entry at position k of the list |
| Arena.Spliced | testengine/eventlog.go:286-297 | the new list's arena indices are the old ones with n placed at position k |
| Arena.LinkAtSpliced | testengine/eventlog.go:292-294 | the links to positions before k are unchanged, and the link at k is the new entry |
| LogState.Consistent | testengine/eventlog.go:276-280 | the invariant EventLog.Valid is: on a consistent log the cursor is nil exactly when every event is consumed, and then LastConsumed is the tail, which is what linking at the tail relies on |
| LogState.FirstEntryConsistent | testengine/eventlog.go:270-274 | inserting into an empty log makes the entry the head and the cursor, and keeps the log consistent |
| LogState.TailEntryConsistent | testengine/eventlog.go:276-281 | linking after the tail keeps the log consistent and moves a nil cursor onto the new entry |
| LogState.FrontEntryConsistent | testengine/eventlog.go:285-298 | linking in front of a pending entry keeps the log consistent, with the cursor on the new entry exactly when it stood on that entry |
| LogState.AdvanceConsistent | testengine/eventlog.go:191-201 | consuming under a non-nil cursor hands out the next pending event and keeps the log consistent; on a sorted log the clock does not go back |
| LogState.FirstBuilt | testengine/eventlog.go:170-172 | the first event read becomes the head and the tail |
| LogState.TailBuilt | testengine/eventlog.go:173-177 | every later event read is appended after the tail and becomes the tail |
| LogState.BuiltIsConsistent | testengine/eventlog.go:185-186 | once the cursor is reset to the head, the log read is consistent with nothing consumed |
| TestEngine.EventLog.constructor | testengine/eventlog.go:152-155 | a new log has the given name and description, no events and time zero |
| TestEngine.EventLog.Insert | testengine/eventlog.go:261-308 | the log becomes the old log with e at the walk's position from the cursor, stays consistent, and stays sorted if it was; the consumed count, the clock and LastConsumed are untouched |
| TestEngine.EventLog.LinkFirstEntry | testengine/eventlog.go:270-274 | into an empty log, the entry becomes the whole log |
| TestEngine.EventLog.LinkAtTail | testengine/eventlog.go:276-281 | the entry is appended after the tail |
| TestEngine.EventLog.LinkInFront | testengine/eventlog.go:285-298 | the entry is placed at position k, in front of the entry there |
| TestEngine.EventLog.ConsumeAndAdvance | testengine/eventlog.go:191-201 | with a nil cursor it returns nil and changes nothing; otherwise it returns the next pending event, counts it consumed and sets the clock to its time; on a sorted log the clock never goes back |
| TestEngine.EventLog.InsertStateEvent | testengine/eventlog.go:241-249 | inserts the state event at FakeTime + fromNow |
| TestEngine.EventLog.InsertTickEvent | testengine/eventlog.go:203-213 | inserts a tick at FakeTime + fromNow |
| TestEngine.EventLog.InsertProposeEvent | testengine/eventlog.go:215-227 | inserts a proposal at FakeTime + fromNow |
| TestEngine.EventLog.InsertStepEvent | testengine/eventlog.go:229-239 | inserts an inbound message at FakeTime + fromNow |
| TestEngine.EventLog.InsertProcess | testengine/eventlog.go:251-259 | inserts a process event at FakeTime + fromNow |
| TestEngine.EventLog.Count | testengine/eventlog.go:310-316 | the walk from the head counts every event of the log, consumed or not |
| TestEngine.EventLog.NodeConfigs | testengine/eventlog.go:58-78 | returns every target of the whole log exactly once, strictly ascending |
| TestEngine.EventLog.Write | testengine/eventlog.go:80-108 | emits the header over the whole log and then the consumed events, one frame each, stopping at the first failure; a failure leaves a prefix of the full recording; with a reliable writer and a marshalling codec it emits the full recording |
| TestEngine.EventLog.WriteEvents | testengine/eventlog.go:93-105 | the walk from the head to the cursor writes exactly the consumed events' frames, in list order |
| TestEngine.EventLog.Append | testengine/eventlog.go:166-177 | a read event is appended to the log being built, and becomes its tail |
| TestEngine.ReadEventLog | testengine/eventlog.go:110-189 | fails exactly when the stream parse fails, with the same error; otherwise the log holds the parsed name, description and events, nothing is consumed, the clock is zero and the cursor is the head |
| TestEngine.InsertThree | testengine/eventlog.go:261-308 | inserting process events at times 10, 5, 20 into a fresh log gives the log 5, 10, 20 with nothing consumed |
| TestEngine.InsertThenConsume | testengine/eventlog.go:191-308 | events inserted at times 10, 5, 20 come out as 5, 10, 20 with the clock following them, and a fourth consume returns nil |
| TestEngine.WriteThenReadLog | testengine/eventlog.go:80-189 | writing a log to a writer that never fails and reading it back gives a valid log with the same name and description, holding the consumed events, with nothing consumed and the clock at zero |

## Left out

- proto.Marshal and proto.Unmarshal are function-valued parameters (`Codec`). Only marshal failure and the round trip on the records written are modelled. The message schemas are not modelled, and payloads are opaque.
- The `io.Writer` and `io.Reader` plumbing is not modelled:
  - the writer is a byte sequence plus the index of the first Write call that fails and the length of the prefix of its chunk that call still accepts;
  - the reader, bufio and the preallocated buffer are the byte sequence still to be read;
  - errors carry which check failed, not their message text or `errors.WithMessage` wrapping.
- sort.Slice is library code. It is modelled by the function SortIds, whose result is fixed by its contract, because strictly ascending lists are unique.
- Go panics are preconditions:
  - Insert requires `time >= FakeTime` (line 262-264);
  - the helpers require `FakeTime + fromNow` not to overflow. With overflow the wrapped time is in the past, so Insert would panic (Varint.AddU64NotBefore).
- The nil-event panic of Write (lines 94-96) cannot occur: every entry holds an `Event` value. In the same way, the nil entry events that ConsumeAndAdvance and Insert dereference are not modelled.
- Pointer identity is modelled by arena indices. Entries are reachable only through the log, so aliasing of entries by outside code is not modelled.
- TestEngine.EventLog.Insert: its ensures clause states the new log through Schedule.Inserted. The facts that the consumed prefix is unchanged and that the count grows by one are proved once, in Schedule.InsertOnlyAdds. The cursor's position and the clock follow from `modifies`.
- TestEngine.EventLog.ConsumeAndAdvance: its ensures clause does not repeat that the list is unchanged. `log` is outside its `modifies`.
