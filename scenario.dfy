/**
 * What Write emits and what ReadEventLog accepts, as functions of bytes
 * (testengine/eventlog.go, Write and ReadEventLog): one scenario frame, then
 * one frame per event. The round trip from the one to the other is proved
 * here, for any codec that reads back the records it wrote.
 */
module Scenario {
  import opened Wrappers
  import opened Varint
  import opened Records
  import opened Framing

  /** The event records of the given events, in order. */
  function EventRecords(events: seq<Event>): (r: seq<LogEntry>)
    ensures |r| == |events|
    ensures forall k :: 0 <= k < |r| ==> r[k] == EventRecord(Some(events[k]))
  {
    seq(|events|, k requires 0 <= k < |events| => EventRecord(Some(events[k])))
  }

  /** The records of a scenario file: the header, then the events. */
  function ScenarioRecords(name: Bytes, description: Bytes, nodeIds: seq<u64>, events: seq<Event>): (r: seq<LogEntry>)
    ensures |r| == |events| + 1 && r[0] == ScenarioRecord(ScenarioConfig(name, description, nodeIds))
    ensures forall k :: 0 <= k < |events| ==> r[k + 1] == EventRecord(Some(events[k]))
  {
    [ScenarioRecord(ScenarioConfig(name, description, nodeIds))] + EventRecords(events)
  }

  /**
   * Why Write stopped: the record it could not write (the scenario header or
   * one event's record) and the cause.
   */
  datatype WriteFailure = WriteFailure(record: LogEntry, cause: Cause)

  /** Write records[k..] one frame each, stopping at the first failure. */
  function WriteRecordsFrom(marshal: LogEntry -> Option<GoBytes>, sink: Sink, records: seq<LogEntry>, k: nat)
    : (r: (Sink, Option<WriteFailure>))
    requires k <= |records|
    ensures r.1.Some? ==> r.1.value.record in records[k..]
    ensures sink.data <= r.0.data && r.0.failAt == sink.failAt
    decreases |records| - k
  {
    if k == |records| then (sink, None)
    else
      var (next, failure) := WritePrefixedProto(marshal, sink, records[k]);
      if failure.Some? then (next, Some(WriteFailure(records[k], failure.value)))
      else WriteRecordsFrom(marshal, next, records, k + 1)
  }

  /** Every record from index k on marshals. */
  ghost predicate MarshalsFrom(marshal: LogEntry -> Option<GoBytes>, records: seq<LogEntry>, k: nat)
  {
    forall j :: k <= j < |records| ==> marshal(records[j]).Some?
  }

  /** The frames of records[k..], when every one of them marshals. */
  function FramesFrom(marshal: LogEntry -> Option<GoBytes>, records: seq<LogEntry>, k: nat): Bytes
    requires k <= |records| && MarshalsFrom(marshal, records, k)
    decreases |records| - k
  {
    if k == |records| then [] else PrefixedFrame(marshal(records[k]).value) + FramesFrom(marshal, records, k + 1)
  }

  /** With a writer that never fails and records that all marshal, every frame is written. */
  lemma {:induction false} WriteRecordsComplete(marshal: LogEntry -> Option<GoBytes>, sink: Sink, records: seq<LogEntry>, k: nat)
    requires k <= |records| && MarshalsFrom(marshal, records, k) && sink.failAt == None
    ensures WriteRecordsFrom(marshal, sink, records, k).1 == None
    ensures WriteRecordsFrom(marshal, sink, records, k).0.data == sink.data + FramesFrom(marshal, records, k)
    decreases |records| - k
  {
    if k < |records| {
      var (next, failure) := WritePrefixedProto(marshal, sink, records[k]);
      var frame := PrefixedFrame(marshal(records[k]).value);
      var later := FramesFrom(marshal, records, k + 1);
      assert failure == None && next.data == sink.data + frame;
      assert WriteRecordsFrom(marshal, sink, records, k) == WriteRecordsFrom(marshal, next, records, k + 1);
      assert FramesFrom(marshal, records, k) == frame + later;
      WriteRecordsComplete(marshal, next, records, k + 1);
      AppendTwice(sink.data, frame, later);
    }
  }

  /**
   * Whatever Write calls fail, what reaches the writer is a prefix of the
   * complete scenario: a failure truncates the file, it never garbles it.
   */
  lemma {:induction false} WriteRecordsPrefix(marshal: LogEntry -> Option<GoBytes>, sink: Sink, records: seq<LogEntry>, k: nat)
    requires k <= |records| && MarshalsFrom(marshal, records, k)
    ensures WriteRecordsFrom(marshal, sink, records, k).0.data <= sink.data + FramesFrom(marshal, records, k)
    decreases |records| - k
  {
    if k < |records| {
      var (next, failure) := WritePrefixedProto(marshal, sink, records[k]);
      var frame := PrefixedFrame(marshal(records[k]).value);
      var later := FramesFrom(marshal, records, k + 1);
      assert FramesFrom(marshal, records, k) == frame + later;
      if failure.None? {
        WriteRecordsPrefix(marshal, next, records, k + 1);
        AppendTwice(sink.data, frame, later);
      } else {
        PrefixGrows(next.data, sink.data + frame, later);
        AppendTwice(sink.data, frame, later);
      }
    }
  }

  /** Why ReadEventLog rejected a stream. */
  datatype ReadError =
    | FrameUnreadable(frame: FrameError)  // a length prefix or a payload was cut short or overflowed
    | Undecodable                         // the payload does not unmarshal
    | NilType                             // the record's Type is nil
    | FirstNotScenario                    // the first record is not a scenario header
    | NotAnEvent                          // a later record is not an event
    | NilEvent                            // an event record carries no event
    | NoScenario                          // the stream ended before any scenario header

  /** What a scenario file yields: its name, its description and its events in order. */
  datatype Recovered = Recovered(name: Bytes, description: Bytes, events: seq<Event>)

  /**
   * The frame loop of ReadEventLog, on the bytes s not yet read, after the
   * header (if any) and the events read so far.
   */
  function ParseFrom(unmarshal: Bytes -> Option<LogEntry>, s: Bytes, header: Option<ScenarioConfig>, events: seq<Event>)
    : (r: Result<Recovered, ReadError>)
    requires header.None? ==> events == []
    ensures r.Ok? && header.Some? ==>
              r.value.name == header.value.name && r.value.description == header.value.description
    ensures r.Ok? ==> events <= r.value.events
    ensures r.Err? && r.error == NoScenario ==> header.None?
    decreases |s|
  {
    match ReadFrame(s)
    case EndOfFrames =>
      if header.None? then Err(NoScenario)
      else Ok(Recovered(header.value.name, header.value.description, events))
    case BadFrame(e) => Err(FrameUnreadable(e))
    case NextFrame(payload, rest) =>
      match unmarshal(payload)
      case None => Err(Undecodable)
      case Some(entry) =>
        if entry.Untyped? then Err(NilType)
        else if header.None? then
          if entry.ScenarioRecord? then ParseFrom(unmarshal, rest, Some(entry.scenario), [])
          else Err(FirstNotScenario)
        else if !entry.EventRecord? then Err(NotAnEvent)
        else if entry.event.None? then Err(NilEvent)
        else ParseFrom(unmarshal, rest, header, events + [entry.event.value])
  }

  /**
   * ReadEventLog on a whole stream. A stream it accepts starts with a frame
   * holding a scenario header, which supplies the name and the description.
   */
  function ParseScenario(unmarshal: Bytes -> Option<LogEntry>, s: Bytes): (r: Result<Recovered, ReadError>)
    ensures r.Ok? ==> ReadFrame(s).NextFrame? && unmarshal(ReadFrame(s).payload).Some?
    ensures r.Ok? ==> var header := unmarshal(ReadFrame(s).payload).value;
                      header.ScenarioRecord?
                      && r.value.name == header.scenario.name && r.value.description == header.scenario.description
  {
    ParseFrom(unmarshal, s, None, [])
  }

  /** One event frame after the header appends its event. */
  lemma ParseEventStep(unmarshal: Bytes -> Option<LogEntry>, msg: GoBytes, rest: Bytes, header: ScenarioConfig, events: seq<Event>, e: Event)
    requires unmarshal(msg) == Some(EventRecord(Some(e)))
    ensures ParseFrom(unmarshal, PrefixedFrame(msg) + rest, Some(header), events)
            == ParseFrom(unmarshal, rest, Some(header), events + [e])
  {
    ReadPrefixedFrame(msg, rest);
  }

  /** Taking one more element of s after a. */
  lemma AppendNext(a: seq<Event>, s: seq<Event>, k: nat)
    requires k < |s|
    ensures a + [s[k]] + s[k + 1..] == a + s[k..]
  {
    assert s[k..] == [s[k]] + s[k + 1..];
  }

  /** Reading back frames of event records appends their events in stream order. */
  lemma {:induction false} ParseEventFrames(codec: Codec, header: ScenarioConfig, events: seq<Event>, more: seq<Event>, k: nat)
    requires k <= |more| && RoundTrips(codec, EventRecords(more))
    requires MarshalsFrom(codec.marshal, EventRecords(more), k)
    ensures ParseFrom(codec.unmarshal, FramesFrom(codec.marshal, EventRecords(more), k), Some(header), events)
            == Ok(Recovered(header.name, header.description, events + more[k..]))
    decreases |more| - k
  {
    var records := EventRecords(more);
    if k == |more| {
      assert FramesFrom(codec.marshal, records, k) == [];
      assert events + more[k..] == events;
      assert ReadFrame([]) == EndOfFrames;
    } else {
      var msg := codec.marshal(records[k]).value;
      var rest := FramesFrom(codec.marshal, records, k + 1);
      assert FramesFrom(codec.marshal, records, k) == PrefixedFrame(msg) + rest;
      assert records[k] == EventRecord(Some(more[k]));
      assert codec.unmarshal(msg) == Some(EventRecord(Some(more[k])));
      ParseEventStep(codec.unmarshal, msg, rest, header, events, more[k]);
      ParseEventFrames(codec, header, events + [more[k]], more, k + 1);
      AppendNext(events, more, k);
    }
  }

  /**
   * The round trip: with a writer that never fails and a codec that reads
   * back its records, reading what Write emits succeeds and gives back the
   * name, the description and the events, in order.
   */
  lemma WriteThenRead(codec: Codec, name: Bytes, description: Bytes, nodeIds: seq<u64>, events: seq<Event>)
    requires RoundTrips(codec, ScenarioRecords(name, description, nodeIds, events))
    ensures var (sink, failure) := WriteRecordsFrom(codec.marshal, Sink([], 0, None, 0), ScenarioRecords(name, description, nodeIds, events), 0);
            failure == None
            && ParseScenario(codec.unmarshal, sink.data) == Ok(Recovered(name, description, events))
  {
    var records := ScenarioRecords(name, description, nodeIds, events);
    var header := ScenarioConfig(name, description, nodeIds);
    var eventRecords := EventRecords(events);
    assert records[1..] == eventRecords;
    assert MarshalsFrom(codec.marshal, records, 0);
    WriteRecordsComplete(codec.marshal, Sink([], 0, None, 0), records, 0);
    var headerBytes := codec.marshal(records[0]).value;
    var eventFrames := FramesFrom(codec.marshal, eventRecords, 0);
    FramesShift(codec.marshal, records, eventRecords, 0);
    assert FramesFrom(codec.marshal, records, 0) == PrefixedFrame(headerBytes) + eventFrames;
    assert [] + FramesFrom(codec.marshal, records, 0) == PrefixedFrame(headerBytes) + eventFrames;
    ParseHeaderStep(codec.unmarshal, headerBytes, eventFrames, header);
    RoundTripsTail(codec, records, eventRecords);
    ParseEventFrames(codec, header, [], events, 0);
    assert [] + events[0..] == events;
  }

  /** The first frame, a scenario header, starts the log. */
  lemma ParseHeaderStep(unmarshal: Bytes -> Option<LogEntry>, msg: GoBytes, rest: Bytes, header: ScenarioConfig)
    requires unmarshal(msg) == Some(ScenarioRecord(header))
    ensures ParseFrom(unmarshal, PrefixedFrame(msg) + rest, None, []) == ParseFrom(unmarshal, rest, Some(header), [])
  {
    ReadPrefixedFrame(msg, rest);
  }

  /** A codec that reads back all records reads back those after the header. */
  lemma RoundTripsTail(codec: Codec, records: seq<LogEntry>, tail: seq<LogEntry>)
    requires |records| >= 1 && records[1..] == tail && RoundTrips(codec, records)
    ensures RoundTrips(codec, tail)
  {
    forall j | 0 <= j < |tail|
      ensures codec.marshal(tail[j]).Some? && codec.unmarshal(codec.marshal(tail[j]).value) == Some(tail[j])
    {
      assert tail[j] == records[j + 1];
    }
  }

  /** Writing the records after the header is writing the event records. */
  lemma {:induction false} WriteRecordsShift(marshal: LogEntry -> Option<GoBytes>, sink: Sink, records: seq<LogEntry>, tail: seq<LogEntry>, k: nat)
    requires |records| == |tail| + 1 && k <= |tail| && records[1..] == tail
    ensures WriteRecordsFrom(marshal, sink, records, k + 1) == WriteRecordsFrom(marshal, sink, tail, k)
    decreases |tail| - k
  {
    if k < |tail| {
      assert records[k + 1] == tail[k];
      var (next, failure) := WritePrefixedProto(marshal, sink, tail[k]);
      if failure.None? {
        WriteRecordsShift(marshal, next, records, tail, k + 1);
      }
    }
  }

  /** The frames of the records after the header are those of the event records. */
  lemma {:induction false} FramesShift(marshal: LogEntry -> Option<GoBytes>, records: seq<LogEntry>, tail: seq<LogEntry>, k: nat)
    requires |records| == |tail| + 1 && k <= |tail| && records[1..] == tail
    requires MarshalsFrom(marshal, records, k + 1)
    ensures MarshalsFrom(marshal, tail, k)
    ensures FramesFrom(marshal, records, k + 1) == FramesFrom(marshal, tail, k)
    decreases |tail| - k
  {
    assert forall j :: k <= j < |tail| ==> tail[j] == records[j + 1];
    if k < |tail| {
      FramesShift(marshal, records, tail, k + 1);
    }
  }

  /** A stream with no bytes holds no scenario. */
  lemma EmptyStreamRejected(unmarshal: Bytes -> Option<LogEntry>)
    ensures ParseScenario(unmarshal, []) == Err(NoScenario)
  {
    assert ReadFrame([]) == EndOfFrames;
  }

  /** A stream whose first record is an event, of whatever kind, is rejected. */
  lemma FirstEventRejected(unmarshal: Bytes -> Option<LogEntry>, msg: GoBytes, rest: Bytes)
    requires unmarshal(msg).Some? && unmarshal(msg).value.EventRecord?
    ensures ParseScenario(unmarshal, PrefixedFrame(msg) + rest) == Err(FirstNotScenario)
  {
    ReadPrefixedFrame(msg, rest);
  }

  /** A record whose Type is nil is rejected wherever it occurs. */
  lemma UntypedRecordRejected(unmarshal: Bytes -> Option<LogEntry>, msg: GoBytes, rest: Bytes, header: Option<ScenarioConfig>, events: seq<Event>)
    requires header.None? ==> events == []
    requires unmarshal(msg) == Some(Untyped)
    ensures ParseFrom(unmarshal, PrefixedFrame(msg) + rest, header, events) == Err(NilType)
  {
    ReadPrefixedFrame(msg, rest);
  }

  /** After the header, a second scenario record is rejected. */
  lemma SecondScenarioRejected(unmarshal: Bytes -> Option<LogEntry>, msg: GoBytes, rest: Bytes, header: ScenarioConfig, events: seq<Event>)
    requires unmarshal(msg).Some? && unmarshal(msg).value.ScenarioRecord?
    ensures ParseFrom(unmarshal, PrefixedFrame(msg) + rest, Some(header), events) == Err(NotAnEvent)
  {
    ReadPrefixedFrame(msg, rest);
  }

  /** After the header, an event record without an event is rejected. */
  lemma NilEventRejected(unmarshal: Bytes -> Option<LogEntry>, msg: GoBytes, rest: Bytes, header: ScenarioConfig, events: seq<Event>)
    requires unmarshal(msg) == Some(EventRecord(None))
    ensures ParseFrom(unmarshal, PrefixedFrame(msg) + rest, Some(header), events) == Err(NilEvent)
  {
    ReadPrefixedFrame(msg, rest);
  }

  /** A stream that ends inside a frame is an error, never a scenario cut short. */
  lemma CutStreamRejected(unmarshal: Bytes -> Option<LogEntry>, msg: GoBytes, j: nat, header: Option<ScenarioConfig>, events: seq<Event>)
    requires header.None? ==> events == []
    requires 0 < j < |PrefixedFrame(msg)|
    ensures ParseFrom(unmarshal, PrefixedFrame(msg)[..j], header, events).Err?
    ensures ParseFrom(unmarshal, PrefixedFrame(msg)[..j], header, events).error.FrameUnreadable?
  {
    ReadCutFrame(msg, j);
  }
}
