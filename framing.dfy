/**
 * The framing of a scenario file (testengine/eventlog.go, writePrefixedProto
 * and the frame loop of ReadEventLog): every record is a varint holding the
 * byte length of the marshalled record, followed by exactly those bytes.
 * The destination is modelled as the bytes written so far plus the index of
 * the first Write call that fails, if any.
 */
module Framing {
  import opened Wrappers
  import opened Varint
  import opened Records

  /**
   * An io.Writer: the bytes it has accepted, how many Write calls it has seen,
   * the index of the call that fails (None for a writer that never fails),
   * and how many bytes of its chunk that failing call still accepts (all of
   * them when the chunk is shorter).
   */
  datatype Sink = Sink(data: Bytes, calls: nat, failAt: Option<nat>, kept: nat)

  /** dest.Write(chunk): the new writer and whether the call succeeded. */
  function Put(sink: Sink, chunk: Bytes): (r: (Sink, bool))
    ensures r.1 <==> sink.failAt != Some(sink.calls)
    ensures r.0.calls == sink.calls + 1 && r.0.failAt == sink.failAt && r.0.kept == sink.kept
    ensures r.1 ==> r.0.data == sink.data + chunk
    ensures !r.1 ==> sink.data <= r.0.data <= sink.data + chunk
  {
    if sink.failAt == Some(sink.calls) then
      var n := if sink.kept < |chunk| then sink.kept else |chunk|;
      assert (sink.data + chunk)[..|sink.data| + n] == sink.data + chunk[..n];
      (sink.(data := sink.data + chunk[..n], calls := sink.calls + 1), false)
    else (sink.(data := sink.data + chunk, calls := sink.calls + 1), true)
  }

  /** The frame that carries one marshalled record. */
  function PrefixedFrame(msg: GoBytes): (r: Bytes)
    ensures |r| == |PutVarint(|msg|)| + |msg| && r[|PutVarint(|msg|)|..] == msg
  {
    PutVarint(|msg|) + msg
  }

  /** A prefix of b is a prefix of anything that continues b. */
  lemma PrefixGrows(a: Bytes, b: Bytes, c: Bytes)
    requires a <= b
    ensures a <= b + c
  {
    assert (b + c)[..|b|] == b;
  }

  /** Appending bytes in two steps is appending them at once. */
  lemma AppendTwice(a: Bytes, b: Bytes, c: Bytes)
    ensures a + b + c == a + (b + c)
  {
  }

  /** Why a record could not be written. */
  datatype Cause = MarshalFailed | SinkFailed

  /**
   * writePrefixedProto: marshal the record, write its length as a varint, then
   * write its bytes; stop at the first error.
   */
  function WritePrefixedProto(marshal: LogEntry -> Option<GoBytes>, sink: Sink, msg: LogEntry): (r: (Sink, Option<Cause>))
    ensures r.0.failAt == sink.failAt && sink.data <= r.0.data
    ensures r.1 == Some(MarshalFailed) <==> marshal(msg).None?
    ensures r.1 == Some(MarshalFailed) ==> r.0 == sink
    ensures r.1 == None ==> r.0.data == sink.data + PrefixedFrame(marshal(msg).value)
    ensures marshal(msg).Some? ==> r.0.data <= sink.data + PrefixedFrame(marshal(msg).value)
    ensures sink.failAt == None && marshal(msg).Some? ==> r.1 == None
  {
    match marshal(msg)
    case None => (sink, Some(MarshalFailed))
    case Some(msgBytes) =>
      var length := PutVarint(|msgBytes|);
      assert sink.data + PrefixedFrame(msgBytes) == sink.data + length + msgBytes;
      var (afterLength, lengthOk) := Put(sink, length);
      if !lengthOk then
        PrefixGrows(afterLength.data, sink.data + length, msgBytes);
        (afterLength, Some(SinkFailed))
      else
        var (afterBytes, bytesOk) := Put(afterLength, msgBytes);
        if !bytesOk then
          PrefixGrows(sink.data, afterLength.data, afterBytes.data[|afterLength.data|..]);
          assert afterBytes.data == afterLength.data + afterBytes.data[|afterLength.data|..];
          (afterBytes, Some(SinkFailed))
        else (afterBytes, None)
  }

  /** Why a frame could not be read. */
  datatype FrameError =
    | LengthUnreadable(varint: VarintError)  // the length prefix was cut short or overflowed
    | PayloadTruncated                       // fewer bytes remain than the prefix announced

  /** The outcome of reading one frame from the front of a stream. */
  datatype FrameRead =
    | NextFrame(payload: Bytes, rest: Bytes)
    | EndOfFrames
    | BadFrame(error: FrameError)

  /**
   * binary.ReadVarint followed by io.CopyN: read the length, then that many
   * bytes. A length of zero or less copies nothing and is not an error.
   */
  function ReadFrame(s: Bytes): (r: FrameRead)
    ensures r.EndOfFrames? <==> s == []
    ensures r.NextFrame? ==> |r.rest| < |s| && s[|s| - |r.rest|..] == r.rest
    ensures r.NextFrame? ==>
              |r.payload| + |r.rest| < |s| && s[|s| - |r.rest| - |r.payload|..|s| - |r.rest|] == r.payload
  {
    match ReadVarint(s)
    case Failed(e) => if e == EndOfStream then EndOfFrames else BadFrame(LengthUnreadable(e))
    case Read(l, n) =>
      if l <= 0 then NextFrame([], s[n..])
      else if l > |s| - n then BadFrame(PayloadTruncated)
      else NextFrame(s[n..n + l], s[n + l..])
  }

  /** Reading a frame gives back the record bytes it carries and leaves what follows. */
  lemma ReadPrefixedFrame(msg: GoBytes, rest: Bytes)
    ensures ReadFrame(PrefixedFrame(msg) + rest) == NextFrame(msg, rest)
  {
    var prefix := PutVarint(|msg|);
    ReadPutVarint(|msg|, msg + rest);
    assert PrefixedFrame(msg) + rest == prefix + (msg + rest);
    var s := prefix + (msg + rest);
    assert s[|prefix|..|prefix| + |msg|] == msg;
    assert s[|prefix| + |msg|..] == rest;
  }

  /**
   * A stream that ends inside a frame, in its length prefix or in its
   * payload, is an error and never a normal end of stream.
   */
  lemma ReadCutFrame(msg: GoBytes, j: nat)
    requires 0 < j < |PrefixedFrame(msg)|
    ensures ReadFrame(PrefixedFrame(msg)[..j]).BadFrame?
  {
    if j < |PutVarint(|msg|)| {
      ReadCutLength(msg, j);
    } else {
      ReadCutPayload(msg, j);
    }
  }

  /** Cut inside the length prefix: the varint ends unexpectedly. */
  lemma ReadCutLength(msg: GoBytes, j: nat)
    requires 0 < j < |PutVarint(|msg|)|
    ensures ReadFrame(PrefixedFrame(msg)[..j]) == BadFrame(LengthUnreadable(UnexpectedEnd))
  {
    assert PrefixedFrame(msg)[..j] == PutUvarint(ZigZag(|msg|))[..j];
    ReadTruncatedUvarint(ZigZag(|msg|), j);
  }

  /** Cut after the length prefix: fewer bytes remain than it announces. */
  lemma ReadCutPayload(msg: GoBytes, j: nat)
    requires |PutVarint(|msg|)| <= j < |PrefixedFrame(msg)|
    ensures ReadFrame(PrefixedFrame(msg)[..j]) == BadFrame(PayloadTruncated)
  {
    var prefix := PutVarint(|msg|);
    var s := PrefixedFrame(msg)[..j];
    assert s == prefix + s[|prefix|..];
    ReadPutVarint(|msg|, s[|prefix|..]);
  }
}
