/**
 * The order the event log keeps, stated on plain sequences of events: where
 * Insert places a new event, what that placement preserves, and the sorted
 * set of node ids that NodeConfigs derives from the log.
 */
module Schedule {
  import opened Varint
  import opened Records

  /** Events appear in non-decreasing logical time. */
  ghost predicate Sorted(s: seq<Event>)
  {
    forall i, j :: 0 <= i < j < |s| ==> s[i].time <= s[j].time
  }

  /**
   * Where Insert puts an event with time t when its walk starts at position
   * from: before the first event from there on that is strictly later than t,
   * or at the end if there is none.
   */
  function InsertPosition(s: seq<Event>, from: nat, t: u64): (p: nat)
    requires from <= |s|
    ensures from <= p <= |s|
    ensures forall j :: from <= j < p ==> s[j].time <= t
    ensures p < |s| ==> s[p].time > t
    decreases |s| - from
  {
    if from == |s| || s[from].time > t then from else InsertPosition(s, from + 1, t)
  }

  /**
   * The three facts InsertPosition promises determine it: p is the walk's
   * result exactly when every event it passes is no later than t and the
   * event at p, if any, is later.
   */
  lemma {:induction false} InsertPositionIs(s: seq<Event>, from: nat, t: u64, p: nat)
    requires from <= p <= |s|
    requires forall j :: from <= j < p ==> s[j].time <= t
    requires p < |s| ==> s[p].time > t
    ensures InsertPosition(s, from, t) == p
    decreases p - from
  {
    if from < p {
      InsertPositionIs(s, from + 1, t, p);
    }
  }

  /** s with e placed at position p. */
  function InsertAt(s: seq<Event>, p: nat, e: Event): (r: seq<Event>)
    requires p <= |s|
    ensures |r| == |s| + 1 && r[p] == e
    ensures forall j :: 0 <= j < p ==> r[j] == s[j]
    ensures forall j :: p < j < |r| ==> r[j] == s[j - 1]
  {
    s[..p] + [e] + s[p..]
  }

  /** Placing e at the end appends it. */
  lemma InsertAtEnd(s: seq<Event>, e: Event)
    ensures InsertAt(s, |s|, e) == s + [e]
  {
    assert s[..|s|] == s;
  }

  /** The log after Insert(e), when the consumed prefix is s[..from]. */
  function Inserted(s: seq<Event>, from: nat, e: Event): (r: seq<Event>)
    requires from <= |s|
    ensures |r| == |s| + 1 && r[..from] == s[..from]
  {
    var r := InsertAt(s, InsertPosition(s, from, e.time), e);
    assert r[..from] == s[..from];
    r
  }

  /**
   * Insertion keeps a sorted log sorted, provided the event is not earlier
   * than the last consumed one.
   */
  lemma InsertKeepsSorted(s: seq<Event>, from: nat, e: Event)
    requires Sorted(s) && from <= |s|
    requires from > 0 ==> s[from - 1].time <= e.time
    ensures Sorted(Inserted(s, from, e))
  {
    var p := InsertPosition(s, from, e.time);
    var r := Inserted(s, from, e);
    forall i, j | 0 <= i < j < |r| ensures r[i].time <= r[j].time {
      if j == p {
        if i < from { assert s[i].time <= s[from - 1].time; }
      } else if i == p {
        assert s[j - 1].time >= s[p].time;
      }
    }
  }

  /**
   * Insertion is stable: among the events the walk passes, exactly those no
   * later than e come before it, so e follows every event of equal time and
   * precedes every strictly later one.
   */
  lemma InsertIsStable(s: seq<Event>, from: nat, e: Event)
    requires Sorted(s) && from <= |s|
    ensures forall j :: from <= j < |s| ==>
              (j < InsertPosition(s, from, e.time) <==> s[j].time <= e.time)
  {
    var p := InsertPosition(s, from, e.time);
    forall j | p <= j < |s| ensures s[j].time > e.time {
      assert s[p].time <= s[j].time;
    }
  }

  /**
   * Insertion adds exactly e: it lands at or after the cursor, the consumed
   * prefix is untouched, and removing e gives back the old log.
   */
  lemma {:induction false} InsertOnlyAdds(s: seq<Event>, from: nat, e: Event)
    requires from <= |s|
    ensures from <= InsertPosition(s, from, e.time)
    ensures |Inserted(s, from, e)| == |s| + 1
    ensures Inserted(s, from, e)[..from] == s[..from]
    ensures Inserted(s, from, e)[InsertPosition(s, from, e.time)] == e
    ensures var p := InsertPosition(s, from, e.time);
            Inserted(s, from, e)[..p] + Inserted(s, from, e)[p + 1..] == s
    ensures multiset(Inserted(s, from, e)) == multiset(s) + multiset{e}
  {
    var p := InsertPosition(s, from, e.time);
    var r := Inserted(s, from, e);
    assert r[..p] == s[..p];
    assert r[p + 1..] == s[p..];
    assert s == s[..p] + s[p..];
  }

  /** Ids in strictly increasing order, so each occurs once. */
  predicate StrictlyAscending(ids: seq<u64>)
  {
    forall i, j :: 0 <= i < j < |ids| ==> ids[i] < ids[j]
  }

  /** Ids in non-decreasing order. */
  predicate Ascending(ids: seq<u64>)
  {
    forall i, j :: 0 <= i < j < |ids| ==> ids[i] <= ids[j]
  }

  /** No id occurs twice. */
  predicate NoDuplicates(ids: seq<u64>)
  {
    forall i, j :: 0 <= i < j < |ids| ==> ids[i] != ids[j]
  }

  /** The replicas the events of s are addressed to. */
  function Targets(s: seq<Event>): set<u64>
  {
    set e | e in s :: e.target
  }

  /**
   * The targets of s without repetition, in the order they are first seen:
   * the slice NodeConfigs builds before sorting it.
   */
  function DistinctTargets(s: seq<Event>): (r: seq<u64>)
    ensures NoDuplicates(r)
    ensures forall x :: x in r <==> x in Targets(s)
  {
    if s == [] then []
    else
      var d := DistinctTargets(s[..|s| - 1]);
      var t := s[|s| - 1].target;
      assert s == s[..|s| - 1] + [s[|s| - 1]];
      if t in d then d else d + [t]
  }

  /** x placed into ids before the first id not smaller than it. */
  function InsertSorted(x: u64, ids: seq<u64>): (r: seq<u64>)
    ensures multiset(r) == multiset(ids) + multiset{x}
    ensures |r| == |ids| + 1 && (r[0] == x || (ids != [] && r[0] == ids[0]))
  {
    if ids == [] || x <= ids[0] then [x] + ids
    else
      assert ids == [ids[0]] + ids[1..];
      [ids[0]] + InsertSorted(x, ids[1..])
  }

  /** An id no larger than the head of ascending ids extends them. */
  lemma ConsAscending(a: u64, s: seq<u64>)
    requires Ascending(s) && (s != [] ==> a <= s[0])
    ensures Ascending([a] + s)
  {
    var r := [a] + s;
    forall i, j | 0 <= i < j < |r| ensures r[i] <= r[j] {
      if i == 0 {
        assert s[0] <= s[j - 1];
      } else {
        assert r[i] == s[i - 1] && r[j] == s[j - 1];
      }
    }
  }

  /** An id smaller than the head of strictly ascending ids extends them. */
  lemma ConsStrict(a: u64, s: seq<u64>)
    requires StrictlyAscending(s) && (s != [] ==> a < s[0])
    ensures StrictlyAscending([a] + s)
  {
    var r := [a] + s;
    forall i, j | 0 <= i < j < |r| ensures r[i] < r[j] {
      if i == 0 {
        assert s[0] <= s[j - 1];
      } else {
        assert r[i] == s[i - 1] && r[j] == s[j - 1];
      }
    }
  }

  /** Placing x into ascending ids keeps them ascending. */
  lemma {:induction false} InsertSortedAscending(x: u64, ids: seq<u64>)
    requires Ascending(ids)
    ensures Ascending(InsertSorted(x, ids))
  {
    if ids == [] || x <= ids[0] {
      ConsAscending(x, ids);
    } else {
      assert Ascending(ids[1..]);
      InsertSortedAscending(x, ids[1..]);
      ConsAscending(ids[0], InsertSorted(x, ids[1..]));
    }
  }

  /** Placing an x they lack into strictly ascending ids keeps them strictly ascending. */
  lemma {:induction false} InsertSortedStrict(x: u64, ids: seq<u64>)
    requires StrictlyAscending(ids) && x !in ids
    ensures StrictlyAscending(InsertSorted(x, ids))
  {
    if ids == [] || x <= ids[0] {
      assert ids != [] ==> x != ids[0];
      ConsStrict(x, ids);
    } else {
      assert StrictlyAscending(ids[1..]) && x !in ids[1..];
      InsertSortedStrict(x, ids[1..]);
      ConsStrict(ids[0], InsertSorted(x, ids[1..]));
    }
  }

  /**
   * The sort.Slice call of NodeConfigs, by increasing id: a permutation of
   * its input in order, strictly increasing when the input has no repeats.
   */
  function SortIds(ids: seq<u64>): (r: seq<u64>)
    ensures multiset(r) == multiset(ids)
    ensures Ascending(r)
    ensures NoDuplicates(ids) ==> StrictlyAscending(r)
  {
    if ids == [] then []
    else
      assert ids == [ids[0]] + ids[1..];
      var sortedTail := SortIds(ids[1..]);
      assert NoDuplicates(ids) ==> NoDuplicates(ids[1..]) && ids[0] !in sortedTail by {
        if NoDuplicates(ids) {
          assert ids[0] !in ids[1..];
          assert ids[0] !in multiset(ids[1..]);
        }
      }
      InsertSortedAscending(ids[0], sortedTail);
      assert NoDuplicates(ids) ==> StrictlyAscending(InsertSorted(ids[0], sortedTail)) by {
        if NoDuplicates(ids) {
          InsertSortedStrict(ids[0], sortedTail);
        }
      }
      InsertSorted(ids[0], sortedTail)
  }

  /** What NodeConfigs returns for a log holding s: every target once, by increasing id. */
  function NodeIds(s: seq<Event>): (r: seq<u64>)
    ensures StrictlyAscending(r)
    ensures forall x :: x in r <==> x in Targets(s)
  {
    var d := DistinctTargets(s);
    var r := SortIds(d);
    assert forall x :: x in r <==> x in multiset(r);
    r
  }

  /** A strictly increasing sequence is determined by the ids it contains. */
  lemma {:induction false} StrictlyAscendingUnique(a: seq<u64>, b: seq<u64>)
    requires StrictlyAscending(a) && StrictlyAscending(b)
    requires forall x :: x in a <==> x in b
    ensures a == b
  {
    assert a != [] ==> a[0] in b;
    assert b != [] ==> b[0] in a;
    if a != [] && b != [] {
      assert a[0] == b[0];
      forall x ensures x in a[1..] <==> x in b[1..] {
        if x in a[1..] { assert x in b && x != b[0]; }
        if x in b[1..] { assert x in a && x != a[0]; }
      }
      StrictlyAscendingUnique(a[1..], b[1..]);
      assert a == [a[0]] + a[1..] && b == [b[0]] + b[1..];
    }
  }

  /** Targets 5, 1, 3, 1, 5 give the node ids 1, 3, 5. */
  lemma NodeIdsExample(p: Payload)
    ensures NodeIds([Event(5, 0, p), Event(1, 0, p), Event(3, 0, p), Event(1, 0, p), Event(5, 0, p)]) == [1, 3, 5]
  {
    var s := [Event(5, 0, p), Event(1, 0, p), Event(3, 0, p), Event(1, 0, p), Event(5, 0, p)];
    assert Targets(s) == {1, 3, 5} by {
      assert s[0].target == 5 && s[1].target == 1 && s[2].target == 3;
    }
    StrictlyAscendingUnique(NodeIds(s), [1, 3, 5]);
  }
}
