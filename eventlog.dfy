/**
 * The event log of the test engine (testengine/eventlog.go): a doubly linked
 * list of events ordered by time, a cursor at the next event to consume and
 * the time of the last one consumed. Insert, ConsumeAndAdvance, Count,
 * NodeConfigs and Write are methods of the class EventLog; ReadEventLog
 * builds one from a byte stream.
 *
 * The list lives in an arena: entry i holds entries[i] and links next[i] and
 * prev[i]. The ghost fields order (the arena indices in list order), log
 * (their events) and consumed (the cursor's position in order) are what the
 * contracts speak of.
 */
module TestEngine {
  import opened Wrappers
  import opened Varint
  import opened Records
  import opened Arena
  import opened Schedule
  import opened Framing
  import opened Scenario
  import opened LogState

  class EventLog {
    var name: Bytes
    var description: Bytes
    var entries: seq<Event>
    var next: seq<Link>
    var prev: seq<Link>
    var first: Link          // FirstEventLogEntry
    var cursor: Link         // NextEventLogEntry, nil once everything is consumed
    var lastConsumed: Link   // LastConsumed
    var fakeTime: u64        // FakeTime

    ghost var order: seq<nat>
    ghost var log: seq<Event>
    ghost var consumed: nat

    /**
     * The arena holds one list; the cursor stands after the first consumed
     * events, lastConsumed is the one right before it and fakeTime its time.
     */
    ghost predicate Valid()
      reads this
    {
      Consistent(entries, next, prev, first, cursor, lastConsumed, fakeTime, order, log, consumed)
    }

    /** While ReadEventLog appends: the cursor on the tail, nothing consumed. */
    ghost predicate Reading()
      reads this
    {
      Building(entries, next, prev, first, cursor, order, log)
      && lastConsumed == Nil && fakeTime == 0 && consumed == 0
    }

    /** An empty log: no events, nothing consumed, time zero. */
    constructor (name: Bytes, description: Bytes)
      ensures Valid() && Reading()
      ensures this.name == name && this.description == description
      ensures log == [] && consumed == 0 && fakeTime == 0
    {
      EmptyIsConsistent();
      EmptyIsBuilding();
      this.name := name;
      this.description := description;
      entries, next, prev := [], [], [];
      first, cursor, lastConsumed := Nil, Nil, Nil;
      fakeTime := 0;
      order, log, consumed := [], [], 0;
    }

    /**
     * Schedule e: it goes before the first unconsumed event strictly later
     * than it, or at the end; on a time-sorted log that is after every
     * unconsumed event not later than it. The consumed events, the cursor's
     * position and the time are untouched. An event in the past makes the
     * source panic, so it is excluded here.
     */
    method Insert(e: Event)
      requires Valid() && e.time >= fakeTime
      modifies this`entries, this`next, this`prev, this`first, this`cursor, this`order, this`log
      ensures Valid()
      ensures log == Inserted(old(log), old(consumed), e)
      ensures Sorted(old(log)) ==> Sorted(log)
    {
      if Sorted(log) {
        InsertKeepsSorted(log, consumed, e);
      }
      if first == Nil {
        InsertPositionIs(log, consumed, e.time, 0);
        LinkFirstEntry(e);
        return;
      }
      if cursor == Nil {
        InsertPositionIs(log, consumed, e.time, |log|);
        LinkAtTail(lastConsumed.index, e);
        return;
      }
      var cur := cursor.index;
      ghost var k := consumed;
      while true
        invariant consumed <= k < |order| && cur == order[k]
        invariant forall j :: consumed <= j < k ==> log[j].time <= e.time
        decreases |order| - k
      {
        if entries[cur].time > e.time {
          InsertPositionIs(log, consumed, e.time, k);
          LinkInFront(cur, k, e);
          return;
        }
        if next[cur] == Nil {
          InsertPositionIs(log, consumed, e.time, |log|);
          LinkAtTail(cur, e);
          return;
        }
        cur := next[cur].index;
        k := k + 1;
      }
    }

    /** Insert into an empty log: the new entry is the head and the cursor. */
    method LinkFirstEntry(e: Event)
      requires Valid() && first == Nil
      modifies this`entries, this`next, this`prev, this`first, this`cursor, this`order, this`log
      ensures Valid() && log == InsertAt(old(log), 0, e)
    {
      FirstEntryConsistent(entries, next, prev, first, cursor, lastConsumed, fakeTime, order, log, consumed, e);
      entries, next, prev, first, cursor := [e], [Nil], [Nil], To(0), To(0);
      order, log := [0], [e];
    }

    /**
     * Link e after tail, the last entry. When everything was consumed the
     * cursor, which stood past the end, now stands on e; otherwise it stays.
     */
    method LinkAtTail(tail: nat, e: Event)
      requires Valid() && |order| > 0 && tail == order[|order| - 1]
      modifies this`entries, this`next, this`prev, this`cursor, this`order, this`log
      ensures Valid() && log == InsertAt(old(log), |old(log)|, e)
    {
      var n := |entries|;
      TailEntryConsistent(entries, next, prev, first, cursor, lastConsumed, fakeTime, order, log, consumed, e);
      InsertAtEnd(log, e);
      var cursor' := if cursor == Nil then To(n) else cursor;
      // tail's Next and the new entry's Prev point at each other
      entries, next, prev, cursor := entries + [e], (next + [Nil])[tail := To(n)], prev + [To(tail)], cursor';
      order, log := order + [n], log + [e];
    }

    /**
     * Link e in front of cur, the k-th entry, at or after the cursor: e takes
     * over cur's prev, and the cursor and the head move to e when they stood
     * on cur.
     */
    method LinkInFront(cur: nat, ghost k: nat, e: Event)
      requires Valid() && consumed <= k < |order| && cur == order[k]
      modifies this`entries, this`next, this`prev, this`first, this`cursor, this`order, this`log
      ensures Valid() && log == InsertAt(old(log), k, e)
    {
      var n := |entries|;
      var before := prev[cur];
      var next1 := next + [To(cur)];                 // the new entry's Next = cur
      // and the entry before cur, if any, now leads to it
      var next' := if before.Nil? then next1 else next1[before.index := To(n)];
      var prev' := (prev + [before])[cur := To(n)];  // its Prev = cur's Prev; cur's Prev = it
      var first' := if To(cur) == first then To(n) else first;
      var cursor' := if To(cur) == cursor then To(n) else cursor;
      ghost var order', log' := Spliced(order, k, n), InsertAt(log, k, e);
      FrontEntryConsistent(entries, next, prev, first, cursor, lastConsumed, fakeTime, order, log, consumed, k, e);
      entries, next, prev, first, cursor := entries + [e], next', prev', first', cursor';
      order, log := order', log';
    }

    /**
     * Hand out the event under the cursor, advance the cursor past it and set
     * the time to its time; nil, with nothing changed, when every event has
     * been consumed.
     */
    method ConsumeAndAdvance() returns (ev: Option<Event>)
      requires Valid()
      modifies this`fakeTime, this`cursor, this`lastConsumed, this`consumed
      ensures Valid()
      ensures old(consumed) == |log| ==> ev == None && unchanged(this)
      ensures old(consumed) < |log| ==> ev == Some(log[old(consumed)]) && consumed == old(consumed) + 1
      ensures ev.Some? ==> fakeTime == ev.value.time
      ensures Sorted(log) ==> old(fakeTime) <= fakeTime
    {
      var nele := cursor;
      if nele == Nil {
        return None;
      }
      AdvanceConsistent(entries, next, prev, first, cursor, lastConsumed, fakeTime, order, log, consumed);
      var entry := entries[nele.index];
      fakeTime, cursor, lastConsumed, consumed := entry.time, next[nele.index], nele, consumed + 1;
      ev := Some(entry);
    }

    /** Schedule a state event for target fromNow ticks after the current time. */
    method InsertStateEvent(target: u64, stateEvent: StateEvent, fromNow: u64)
      requires Valid() && fakeTime + fromNow < TWO_POW_64
      modifies this`entries, this`next, this`prev, this`first, this`cursor, this`order, this`log
      ensures Valid()
      ensures log == Inserted(old(log), old(consumed), Event(target, old(fakeTime) + fromNow, State(stateEvent)))
      ensures Sorted(old(log)) ==> Sorted(log)
    {
      AddU64NotBefore(fakeTime, fromNow);
      Insert(Event(target, AddU64(fakeTime, fromNow), State(stateEvent)));
    }

    /** Schedule a tick for target fromNow ticks from now. */
    method InsertTickEvent(target: u64, fromNow: u64)
      requires Valid() && fakeTime + fromNow < TWO_POW_64
      modifies this`entries, this`next, this`prev, this`first, this`cursor, this`order, this`log
      ensures Valid()
      ensures log == Inserted(old(log), old(consumed), Event(target, old(fakeTime) + fromNow, State(TickElapsed)))
      ensures Sorted(old(log)) ==> Sorted(log)
    {
      InsertStateEvent(target, TickElapsed, fromNow);
    }

    /** Schedule the proposal of request req at target fromNow ticks from now. */
    method InsertProposeEvent(target: u64, req: Bytes, fromNow: u64)
      requires Valid() && fakeTime + fromNow < TWO_POW_64
      modifies this`entries, this`next, this`prev, this`first, this`cursor, this`order, this`log
      ensures Valid()
      ensures log == Inserted(old(log), old(consumed), Event(target, old(fakeTime) + fromNow, State(Proposal(req))))
      ensures Sorted(old(log)) ==> Sorted(log)
    {
      InsertStateEvent(target, Proposal(req), fromNow);
    }

    /** Schedule the delivery of step message step to target fromNow ticks from now. */
    method InsertStepEvent(target: u64, step: Bytes, fromNow: u64)
      requires Valid() && fakeTime + fromNow < TWO_POW_64
      modifies this`entries, this`next, this`prev, this`first, this`cursor, this`order, this`log
      ensures Valid()
      ensures log == Inserted(old(log), old(consumed), Event(target, old(fakeTime) + fromNow, State(InboundMsg(step))))
      ensures Sorted(old(log)) ==> Sorted(log)
    {
      InsertStateEvent(target, InboundMsg(step), fromNow);
    }

    /** Schedule a processing turn for target fromNow ticks from now. */
    method InsertProcess(target: u64, fromNow: u64)
      requires Valid() && fakeTime + fromNow < TWO_POW_64
      modifies this`entries, this`next, this`prev, this`first, this`cursor, this`order, this`log
      ensures Valid()
      ensures log == Inserted(old(log), old(consumed), Event(target, old(fakeTime) + fromNow, Process))
      ensures Sorted(old(log)) ==> Sorted(log)
    {
      AddU64NotBefore(fakeTime, fromNow);
      Insert(Event(target, AddU64(fakeTime, fromNow), Process));
    }

    /** The number of events in the log, consumed or not. */
    method Count() returns (total: nat)
      requires Valid()
      ensures total == |log|
    {
      total := 0;
      var entry := first;
      while entry != Nil
        invariant total <= |order| && entry == LinkAt(order, total)
        decreases |order| - total
      {
        total := total + 1;
        entry := next[entry.index];
      }
    }

    /**
     * The targets of the events in the log, each once, in ascending order:
     * the node set a scenario header records.
     */
    method NodeConfigs() returns (ids: seq<u64>)
      requires Valid()
      ensures ids == NodeIds(log)
      ensures StrictlyAscending(ids)
      ensures forall x :: x in ids <==> x in Targets(log)
    {
      var seen: set<u64> := {};
      var found: seq<u64> := [];
      var entry := first;
      ghost var k := 0;
      while entry != Nil
        invariant k <= |order| && entry == LinkAt(order, k)
        invariant found == DistinctTargets(log[..k])
        invariant forall x :: x in seen <==> x in found
        decreases |order| - k
      {
        var target := entries[entry.index].target;
        assert log[..k + 1][..k] == log[..k];
        if target !in seen {
          seen := seen + {target};
          found := found + [target];
        }
        entry := next[entry.index];
        k := k + 1;
      }
      assert log[..k] == log;
      ids := SortIds(found);
    }

    /**
     * Write the scenario header (name, description, node set), then every
     * consumed event in order, one length-prefixed frame each, stopping at
     * the first record that does not marshal or that the writer refuses.
     */
    method Write(marshal: LogEntry -> Option<GoBytes>, dest: Sink) returns (failure: Option<WriteFailure>, out: Sink)
      requires Valid()
      ensures (out, failure) == WriteRecordsFrom(marshal, dest, ScenarioRecords(name, description, NodeIds(log), log[..consumed]), 0)
      ensures var records := ScenarioRecords(name, description, NodeIds(log), log[..consumed]);
              MarshalsFrom(marshal, records, 0) ==> out.data <= dest.data + FramesFrom(marshal, records, 0)
      ensures var records := ScenarioRecords(name, description, NodeIds(log), log[..consumed]);
              MarshalsFrom(marshal, records, 0) && dest.failAt == None ==>
              failure == None && out.data == dest.data + FramesFrom(marshal, records, 0)
    {
      var ids := NodeConfigs();
      ghost var records := ScenarioRecords(name, description, ids, log[..consumed]);
      if MarshalsFrom(marshal, records, 0) {
        WriteRecordsPrefix(marshal, dest, records, 0);
        if dest.failAt == None {
          WriteRecordsComplete(marshal, dest, records, 0);
        }
      }
      var header := ScenarioRecord(ScenarioConfig(name, description, ids));
      var (sink, cause) := WritePrefixedProto(marshal, dest, header);
      if cause.Some? {
        return Some(WriteFailure(header, cause.value)), sink;
      }
      assert records[1..] == EventRecords(log[..consumed]);
      WriteRecordsShift(marshal, sink, records, EventRecords(log[..consumed]), 0);
      failure, out := WriteEvents(marshal, sink);
    }

    /**
     * The event loop of Write: from the head up to the cursor, one frame per
     * consumed event, stopping at the first one that fails.
     */
    method WriteEvents(marshal: LogEntry -> Option<GoBytes>, start: Sink) returns (failure: Option<WriteFailure>, out: Sink)
      requires Valid()
      ensures (out, failure) == WriteRecordsFrom(marshal, start, EventRecords(log[..consumed]), 0)
    {
      ghost var done := log[..consumed];
      ghost var records := EventRecords(done);
      var sink := start;
      var entry := first;
      ghost var k := 0;
      while entry != Nil && entry != cursor
        invariant k <= consumed && entry == LinkAt(order, k)
        invariant WriteRecordsFrom(marshal, start, records, 0) == WriteRecordsFrom(marshal, sink, records, k)
        decreases consumed - k
      {
        var record := EventRecord(Some(entries[entry.index]));
        assert entries[entry.index] == log[k] == done[k];
        var (sink', cause') := WritePrefixedProto(marshal, sink, record);
        if cause'.Some? {
          return Some(WriteFailure(record, cause'.value)), sink';
        }
        assert WriteRecordsFrom(marshal, sink, records, k) == WriteRecordsFrom(marshal, sink', records, k + 1);
        assert next[order[k]] == LinkAt(order, k + 1);
        sink := sink';
        entry := next[entry.index];
        k := k + 1;
      }
      assert Apart(order, k, consumed);  // the walk stopped at the cursor
      return None, sink;
    }

    /**
     * Link e after the tail of a log being read back and move the cursor,
     * which marks the tail while reading, onto it.
     */
    method Append(e: Event)
      requires Reading()
      modifies this`entries, this`next, this`prev, this`first, this`cursor, this`order, this`log
      ensures Reading() && log == old(log) + [e]
    {
      var n := |entries|;
      if first == Nil {
        FirstBuilt(entries, next, prev, first, cursor, order, log, e);
        entries, next, prev, first, cursor := [e], [Nil], [Nil], To(0), To(0);
        order, log := [0], [e];
      } else {
        TailBuilt(entries, next, prev, first, cursor, order, log, e);
        var tail := cursor;
        // the new entry's Prev is the tail, the tail's Next is the new entry
        entries, next, prev, cursor := entries + [e], (next + [Nil])[tail.index := To(n)], prev + [tail], To(n);
        order, log := order + [n], log + [e];
      }
    }
  }

  /**
   * Rebuild an event log from a stream Write produced: a scenario header,
   * then events, appended in the order they come. It fails exactly when the
   * stream parse fails, with the same error; otherwise the log holds the
   * parsed name, description and events with the cursor at the first one.
   */
  method ReadEventLog(unmarshal: Bytes -> Option<LogEntry>, source: Bytes) returns (r: Result<EventLog, ReadError>)
    ensures r.Err? <==> ParseScenario(unmarshal, source).Err?
    ensures r.Err? ==> r.error == ParseScenario(unmarshal, source).error
    ensures r.Ok? ==> fresh(r.value) && r.value.Valid()
    ensures r.Ok? ==> ParseScenario(unmarshal, source).value == Recovered(r.value.name, r.value.description, r.value.log)
    ensures r.Ok? ==> r.value.consumed == 0 && r.value.fakeTime == 0 && r.value.cursor == r.value.first
  {
    var eventLog: EventLog? := null;
    var scenario := ScenarioConfig([], [], []);
    var rest := source;
    while true
      invariant eventLog == null ==> ParseFrom(unmarshal, rest, None, []) == ParseScenario(unmarshal, source)
      invariant eventLog != null ==> fresh(eventLog) && eventLog.Reading()
      invariant eventLog != null ==> eventLog.name == scenario.name && eventLog.description == scenario.description
      invariant eventLog != null ==> ParseFrom(unmarshal, rest, Some(scenario), eventLog.log) == ParseScenario(unmarshal, source)
      decreases |rest|
    {
      var frame := ReadFrame(rest);
      if frame.EndOfFrames? {
        break;
      }
      if frame.BadFrame? {
        return Err(FrameUnreadable(frame.error));
      }
      var entry := unmarshal(frame.payload);
      if entry.None? {
        return Err(Undecodable);
      }
      if entry.value.Untyped? {
        return Err(NilType);
      }
      if eventLog == null {
        if !entry.value.ScenarioRecord? {
          return Err(FirstNotScenario);
        }
        scenario := entry.value.scenario;
        eventLog := new EventLog(scenario.name, scenario.description);
      } else {
        if !entry.value.EventRecord? {
          return Err(NotAnEvent);
        }
        if entry.value.event.None? {
          return Err(NilEvent);
        }
        eventLog.Append(entry.value.event.value);
      }
      rest := frame.rest;
    }
    if eventLog == null {
      return Err(NoScenario);
    }
    BuiltIsConsistent(eventLog.entries, eventLog.next, eventLog.prev, eventLog.first, eventLog.cursor, eventLog.order, eventLog.log);
    eventLog.cursor := eventLog.first;  // reset the cursor to the beginning of the log
    return Ok(eventLog);
  }

  /**
   * The class-level round trip: writing a log to a writer that never fails
   * and reading the bytes back, with a codec that reads back the records
   * written, gives a log with the same name and description whose events are
   * the consumed events of the original, ready to be replayed from the start.
   */
  method WriteThenReadLog(codec: Codec, l: EventLog) returns (r: Result<EventLog, ReadError>)
    requires l.Valid()
    requires RoundTrips(codec, ScenarioRecords(l.name, l.description, NodeIds(l.log), l.log[..l.consumed]))
    ensures r.Ok? && r.value.name == l.name && r.value.description == l.description
    ensures r.Ok? ==> r.value.log == l.log[..l.consumed]
    ensures r.Ok? ==> r.value.Valid() && r.value.consumed == 0 && r.value.fakeTime == 0 && r.value.cursor == r.value.first
  {
    var failure, out := l.Write(codec.marshal, Sink([], 0, None, 0));
    WriteThenRead(codec, l.name, l.description, NodeIds(l.log), l.log[..l.consumed]);
    r := ReadEventLog(codec.unmarshal, out.data);
  }

  /** A fresh log given process events at times 10, 5 and 20 for replica 1, in that order. */
  method InsertThree() returns (l: EventLog)
    ensures fresh(l) && l.Valid() && l.consumed == 0
    ensures l.log == [Event(1, 5, Process), Event(1, 10, Process), Event(1, 20, Process)]
  {
    var a, b, c := Event(1, 10, Process), Event(1, 5, Process), Event(1, 20, Process);
    l := new EventLog([], []);
    l.InsertProcess(1, 10);
    assert l.log == [a];
    l.InsertProcess(1, 5);
    assert InsertPosition([a], 0, 5) == 0;
    assert l.log == [b, a];
    l.InsertProcess(1, 20);
    assert InsertPosition([b, a], 0, 20) == 2;
  }

  /**
   * Those events are handed out as 5, 10, 20, with the clock following each
   * one, and then nothing is left.
   */
  method InsertThenConsume() returns (clock: seq<u64>, times: seq<u64>, last: Option<Event>)
    ensures clock == [5, 10, 20] && times == [5, 10, 20] && last == None
  {
    var l := InsertThree();
    var e1 := l.ConsumeAndAdvance();
    var t1 := l.fakeTime;
    var e2 := l.ConsumeAndAdvance();
    var t2 := l.fakeTime;
    var e3 := l.ConsumeAndAdvance();
    clock, times := [t1, t2, l.fakeTime], [e1.value.time, e2.value.time, e3.value.time];
    last := l.ConsumeAndAdvance();
  }
}
