/**
 * The records of a recorded scenario: the events the simulation schedules
 * and the two kinds of log entry a scenario file holds. Their protobuf
 * schemas belong to the consensus library; this model keeps only what the
 * event log reads (an event's target replica and logical time) and treats
 * every payload as an opaque value.
 */
module Records {
  import opened Wrappers
  import opened Varint

  /** A Go byte slice or string. */
  type Bytes = seq<byte>

  /** A byte slice Go can allocate: its length fits in an int, so int64(len) is exact. */
  type GoBytes = s: seq<byte> | |s| < TWO_POW_63

  /** The replica state events the typed insertion helpers build (the rest stay opaque). */
  datatype StateEvent =
    | TickElapsed                  // a timer tick
    | Proposal(request: Bytes)     // a client request to propose
    | InboundMsg(step: Bytes)      // a protocol message delivered to the replica
    | OtherStateEvent(raw: Bytes)  // any other state event, uninterpreted

  /** The one-of payload of an event; NoPayload is an event whose Type is nil. */
  datatype Payload = NoPayload | State(stateEvent: StateEvent) | Process

  /** One scheduled event: which replica it is for, when, and what. */
  datatype Event = Event(target: u64, time: u64, payload: Payload)

  /** The scenario header: name, description and the ids of the nodes it involves. */
  datatype ScenarioConfig = ScenarioConfig(name: Bytes, description: Bytes, nodeIds: seq<u64>)

  /**
   * One record of a scenario file. Untyped is a record whose Type is nil;
   * EventRecord(None) is an event record whose event is nil.
   */
  datatype LogEntry =
    | Untyped
    | ScenarioRecord(scenario: ScenarioConfig)
    | EventRecord(event: Option<Event>)

  /**
   * The protobuf codec, left abstract: marshalling may fail, and unmarshalling
   * arbitrary bytes may fail. Nothing is assumed of the pair except where a
   * lemma says so.
   */
  datatype Codec = Codec(marshal: LogEntry -> Option<GoBytes>, unmarshal: Bytes -> Option<LogEntry>)

  /** The codec reads back what it wrote, for each of the given records. */
  ghost predicate RoundTrips(codec: Codec, records: seq<LogEntry>)
  {
    forall k :: 0 <= k < |records| ==>
      codec.marshal(records[k]).Some? && codec.unmarshal(codec.marshal(records[k]).value) == Some(records[k])
  }
}
