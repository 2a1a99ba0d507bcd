/**
 * The state of an EventLog as plain values: the arena list plus the cursor
 * (NextEventLogEntry), LastConsumed and FakeTime. Consistent says how they
 * fit together; each lemma here is one transition the log's methods make,
 * stated on the exact new field values those methods assign.
 */
module LogState {
  import opened Varint
  import opened Records
  import opened Arena
  import opened Schedule

  /**
   * The arena holds one list whose events are log; the cursor stands on
   * the entry after the first consumed events (nil once all are consumed),
   * lastConsumed on the entry just before it, and fakeTime is the time of
   * that entry (zero before anything is consumed).
   */
  ghost predicate Consistent(entries: seq<Event>, next: seq<Link>, prev: seq<Link>, first: Link,
                             cursor: Link, lastConsumed: Link, fakeTime: u64,
                             order: seq<nat>, log: seq<Event>, consumed: nat)
    ensures Consistent(entries, next, prev, first, cursor, lastConsumed, fakeTime, order, log, consumed) ==>
              (cursor == Nil <==> consumed == |log|)
    ensures Consistent(entries, next, prev, first, cursor, lastConsumed, fakeTime, order, log, consumed) ==>
              (cursor == Nil && log != [] ==> lastConsumed == LinkAt(order, |order| - 1))
  {
    WellLinked(entries, next, prev, first, order, log)
    && consumed <= |order|
    && cursor == LinkAt(order, consumed)
    && lastConsumed == LinkAt(order, consumed - 1)
    && fakeTime == (if consumed == 0 then 0 else log[consumed - 1].time)
  }

  /** A new log: empty list, nothing consumed, time zero. */
  lemma EmptyIsConsistent()
    ensures Consistent([], [], [], Nil, Nil, Nil, 0, [], [], 0)
  {
    EmptyIsLinked();
  }

  /** Into an empty list, the new entry becomes the head and the cursor. */
  lemma FirstEntryConsistent(entries: seq<Event>, next: seq<Link>, prev: seq<Link>, first: Link,
                             cursor: Link, lastConsumed: Link, fakeTime: u64,
                             order: seq<nat>, log: seq<Event>, consumed: nat, e: Event)
    requires Consistent(entries, next, prev, first, cursor, lastConsumed, fakeTime, order, log, consumed)
    requires first == Nil
    ensures log == [] && consumed == 0
    ensures Consistent([e], [Nil], [Nil], To(0), To(0), lastConsumed, fakeTime, [0], [e], consumed)
  {
    LinkFirst(e);
  }

  /**
   * Linking e after the tail appends it; a cursor that stood past the end
   * now stands on e, any other cursor stays where it was.
   */
  lemma TailEntryConsistent(entries: seq<Event>, next: seq<Link>, prev: seq<Link>, first: Link,
                            cursor: Link, lastConsumed: Link, fakeTime: u64,
                            order: seq<nat>, log: seq<Event>, consumed: nat, e: Event)
    requires Consistent(entries, next, prev, first, cursor, lastConsumed, fakeTime, order, log, consumed)
    requires |order| > 0
    ensures var n := |entries|;
            var tail := order[|order| - 1];
            Consistent(entries + [e], (next + [Nil])[tail := To(n)], prev + [To(tail)], first,
                       if cursor == Nil then To(n) else cursor, lastConsumed, fakeTime,
                       order + [n], log + [e], consumed)
  {
    var n := |entries|;
    LinkAfterTail(entries, next, prev, first, order, log, e);
    LinkAtAppended(order, n, consumed);
    LinkAtAppended(order, n, consumed - 1);
  }

  /**
   * Linking e in front of the k-th entry, at or after the cursor, places it
   * at position k; the cursor moves to e exactly when it stood on that
   * entry, and the consumed entries keep their places.
   */
  lemma FrontEntryConsistent(entries: seq<Event>, next: seq<Link>, prev: seq<Link>, first: Link,
                             cursor: Link, lastConsumed: Link, fakeTime: u64,
                             order: seq<nat>, log: seq<Event>, consumed: nat, k: nat, e: Event)
    requires Consistent(entries, next, prev, first, cursor, lastConsumed, fakeTime, order, log, consumed)
    requires consumed <= k < |order|
    ensures var n := |entries|;
            var cur := order[k];
            var next1 := next + [To(cur)];
            var next' := if prev[cur].Nil? then next1 else next1[prev[cur].index := To(n)];
            var prev' := (prev + [prev[cur]])[cur := To(n)];
            var first' := if To(cur) == first then To(n) else first;
            var cursor' := if To(cur) == cursor then To(n) else cursor;
            Consistent(entries + [e], next', prev', first', cursor', lastConsumed, fakeTime,
                       Spliced(order, k, n), InsertAt(log, k, e), consumed)
  {
    var n := |entries|;
    LinkBefore(entries, next, prev, first, order, log, k, e);
    assert To(order[k]) == LinkAt(order, consumed) <==> k == consumed;
    LinkAtSpliced(order, k, n, consumed);
    LinkAtSpliced(order, k, n, consumed - 1);
  }

  /**
   * Consuming the entry under a non-nil cursor moves the cursor to its next,
   * makes it the last consumed one and sets the time to its event's time.
   */
  lemma AdvanceConsistent(entries: seq<Event>, next: seq<Link>, prev: seq<Link>, first: Link,
                          cursor: Link, lastConsumed: Link, fakeTime: u64,
                          order: seq<nat>, log: seq<Event>, consumed: nat)
    requires Consistent(entries, next, prev, first, cursor, lastConsumed, fakeTime, order, log, consumed)
    requires cursor != Nil
    ensures consumed < |log| && cursor.index < |entries| && entries[cursor.index] == log[consumed]
    ensures Consistent(entries, next, prev, first, next[cursor.index], cursor, entries[cursor.index].time,
                       order, log, consumed + 1)
    ensures Sorted(log) ==> fakeTime <= entries[cursor.index].time
  {
    if Sorted(log) && consumed > 0 {
      assert log[consumed - 1].time <= log[consumed].time;
    }
  }

  /**
   * While a log is read back from a stream: one list, the cursor on its
   * tail (nil while it is empty).
   */
  ghost predicate Building(entries: seq<Event>, next: seq<Link>, prev: seq<Link>, first: Link,
                           cursor: Link, order: seq<nat>, log: seq<Event>)
  {
    WellLinked(entries, next, prev, first, order, log) && cursor == LinkAt(order, |order| - 1)
  }

  /** Reading starts from the empty list. */
  lemma EmptyIsBuilding()
    ensures Building([], [], [], Nil, Nil, [], [])
  {
    EmptyIsLinked();
  }

  /** The first event read becomes the head and the tail. */
  lemma FirstBuilt(entries: seq<Event>, next: seq<Link>, prev: seq<Link>, first: Link,
                   cursor: Link, order: seq<nat>, log: seq<Event>, e: Event)
    requires Building(entries, next, prev, first, cursor, order, log) && first == Nil
    ensures log == [] && Building([e], [Nil], [Nil], To(0), To(0), [0], [e])
  {
    LinkFirst(e);
  }

  /** Each later event is linked after the tail and becomes the tail. */
  lemma TailBuilt(entries: seq<Event>, next: seq<Link>, prev: seq<Link>, first: Link,
                  cursor: Link, order: seq<nat>, log: seq<Event>, e: Event)
    requires Building(entries, next, prev, first, cursor, order, log) && first != Nil
    ensures cursor.To? && cursor.index < |entries|
    ensures var n := |entries|;
            Building(entries + [e], (next + [Nil])[cursor.index := To(n)], prev + [cursor], first, To(n),
                     order + [n], log + [e])
  {
    LinkAfterTail(entries, next, prev, first, order, log, e);
  }

  /** Once the stream ends, the cursor goes back to the head. */
  lemma BuiltIsConsistent(entries: seq<Event>, next: seq<Link>, prev: seq<Link>, first: Link,
                          cursor: Link, order: seq<nat>, log: seq<Event>)
    requires Building(entries, next, prev, first, cursor, order, log)
    ensures Consistent(entries, next, prev, first, first, Nil, 0, order, log, 0)
  {
  }
}
