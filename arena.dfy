/**
 * The doubly linked list of EventLogEntry, as an arena: entry j of the arena
 * holds entries[j] and the links next[j] and prev[j]. The ghost sequence
 * order lists the arena indices from the head on, which is what "the list"
 * means; the lemmas here show that each way Insert and ReadEventLog rewire
 * the links yields the list with one entry added at the intended place.
 */
module Arena {
  import opened Records

  /** A pointer to an entry: nil, or the arena index of the entry. */
  datatype Link = Nil | To(index: nat)

  /** The link to the i-th entry of the list, nil past either end. */
  function LinkAt(order: seq<nat>, i: int): Link
  {
    if 0 <= i < |order| then To(order[i]) else Nil
  }

  /** Two different positions of order hold different arena indices. */
  ghost predicate Apart(order: seq<nat>, i: int, j: int)
  {
    0 <= i < |order| && 0 <= j < |order| && i != j ==> order[i] != order[j]
  }

  /**
   * order lists arena indices below n, none twice. (Distinctness is stated
   * pair by pair through Apart, so that proofs name the pairs they need.)
   */
  ghost predicate Indices(order: seq<nat>, n: nat)
  {
    (forall i :: 0 <= i < |order| ==> order[i] < n)
    && (forall i, j {:trigger Apart(order, i, j)} :: Apart(order, i, j))
  }

  /** Every entry's next is the following entry of the list (nil for the tail). */
  ghost predicate NextLinks(next: seq<Link>, order: seq<nat>)
  {
    forall i {:trigger next[order[i]]} :: 0 <= i < |order| ==> order[i] < |next| && next[order[i]] == LinkAt(order, i + 1)
  }

  /** Every entry's prev is the preceding entry of the list (nil for the head). */
  ghost predicate PrevLinks(prev: seq<Link>, order: seq<nat>)
  {
    forall i {:trigger prev[order[i]]} :: 0 <= i < |order| ==> order[i] < |prev| && prev[order[i]] == LinkAt(order, i - 1)
  }

  /** log lists the events of the entries in list order. */
  ghost predicate Holds(entries: seq<Event>, order: seq<nat>, log: seq<Event>)
  {
    |log| == |order| && forall i :: 0 <= i < |order| ==> order[i] < |entries| && log[i] == entries[order[i]]
  }

  /**
   * The arena holds exactly one list, whose entries from the head on are the
   * arena indices order, each once; log is their events in that order.
   */
  ghost predicate WellLinked(entries: seq<Event>, next: seq<Link>, prev: seq<Link>, first: Link, order: seq<nat>, log: seq<Event>)
  {
    |next| == |entries| && |prev| == |entries| && |order| == |entries|
    && Indices(order, |entries|)
    && Holds(entries, order, log)
    && first == LinkAt(order, 0)
    && NextLinks(next, order)
    && PrevLinks(prev, order)
  }

  /** The empty arena holds the empty list. */
  lemma EmptyIsLinked()
    ensures WellLinked([], [], [], Nil, [], [])
  {
  }

  /** A first entry in an empty arena becomes the whole list, and its head. */
  lemma LinkFirst(e: Event)
    ensures WellLinked([e], [Nil], [Nil], To(0), [0], [e])
  {
  }

  /**
   * Linking a new entry after the tail (next of the tail and prev of the new
   * entry set, the new entry's next left nil) appends it to the list.
   */
  lemma LinkAfterTail(entries: seq<Event>, next: seq<Link>, prev: seq<Link>, first: Link, order: seq<nat>, log: seq<Event>, e: Event)
    requires WellLinked(entries, next, prev, first, order, log) && |order| > 0
    ensures var n := |entries|;
            var tail := order[|order| - 1];
            WellLinked(entries + [e], (next + [Nil])[tail := To(n)], prev + [To(tail)], first, order + [n], log + [e])
  {
    var n := |entries|;
    var tail := order[n - 1];
    AppendedIndices(order, n);
    AppendedNext(next, order, n);
    AppendedPrev(prev, order, n);
    assert Holds(entries + [e], order + [n], log + [e]);
  }

  lemma AppendedIndices(order: seq<nat>, n: nat)
    requires Indices(order, n) && |order| == n
    ensures Indices(order + [n], n + 1)
  {
    forall i, j ensures Apart(order + [n], i, j) {
      if 0 <= i < n && 0 <= j < n {
        assert Apart(order, i, j);
      }
    }
  }

  lemma AppendedNext(next: seq<Link>, order: seq<nat>, n: nat)
    requires Indices(order, n) && NextLinks(next, order) && 0 < |order| == n == |next|
    ensures NextLinks((next + [Nil])[order[n - 1] := To(n)], order + [n])
  {
    var order' := order + [n];
    var next' := (next + [Nil])[order[n - 1] := To(n)];
    forall i | 0 <= i < |order'| ensures order'[i] < |next'| && next'[order'[i]] == LinkAt(order', i + 1) {
      if i < n - 1 {
        assert Apart(order, i, n - 1);
      }
    }
  }

  lemma AppendedPrev(prev: seq<Link>, order: seq<nat>, n: nat)
    requires Indices(order, n) && PrevLinks(prev, order) && 0 < |order| == n == |prev|
    ensures PrevLinks(prev + [To(order[n - 1])], order + [n])
  {
    var order' := order + [n];
    var prev' := prev + [To(order[n - 1])];
    forall i | 0 <= i < |order'| ensures order'[i] < |prev'| && prev'[order'[i]] == LinkAt(order', i - 1) {
      if i < n {
        assert order'[i] == order[i] && prev'[order[i]] == prev[order[i]];
        assert LinkAt(order', i - 1) == LinkAt(order, i - 1);
      } else {
        assert order'[i] == n && prev'[n] == To(order[n - 1]);
      }
    }
  }

  /** Appending n leaves the links to the earlier positions as they were. */
  lemma LinkAtAppended(order: seq<nat>, n: nat, i: int)
    requires -1 <= i <= |order|
    ensures LinkAt(order + [n], i) == if i == |order| then To(n) else LinkAt(order, i)
  {
  }

  /** order with arena index n placed at position k. */
  function Spliced(order: seq<nat>, k: nat, n: nat): (r: seq<nat>)
    requires k <= |order|
    ensures |r| == |order| + 1 && r[k] == n
    ensures forall i :: 0 <= i < k ==> r[i] == order[i]
    ensures forall i :: k < i < |r| ==> r[i] == order[i - 1]
  {
    order[..k] + [n] + order[k..]
  }

  /** Splicing n in at k leaves the links to the positions before k as they were. */
  lemma LinkAtSpliced(order: seq<nat>, k: nat, n: nat, i: int)
    requires -1 <= i <= k <= |order|
    ensures LinkAt(Spliced(order, k, n), i) == if i == k then To(n) else LinkAt(order, i)
  {
  }

  /**
   * Linking a new entry in front of the k-th entry, the way Insert does it
   * (its next is that entry, its prev is that entry's prev, that entry's prev
   * and its predecessor's next now point at it, and the head moves to it
   * when that entry was the head), places it at position k of the list.
   */
  lemma LinkBefore(entries: seq<Event>, next: seq<Link>, prev: seq<Link>, first: Link, order: seq<nat>, log: seq<Event>, k: nat, e: Event)
    requires WellLinked(entries, next, prev, first, order, log) && k < |order|
    ensures var n := |entries|;
            var cur := order[k];
            var next1 := next + [To(cur)];
            var next' := if prev[cur].Nil? then next1 else next1[prev[cur].index := To(n)];
            var prev' := (prev + [prev[cur]])[cur := To(n)];
            var first' := if To(cur) == first then To(n) else first;
            WellLinked(entries + [e], next', prev', first', Spliced(order, k, n), log[..k] + [e] + log[k..])
  {
    var n := |entries|;
    var cur := order[k];
    var order' := Spliced(order, k, n);
    SplicedIndices(order, k, n);
    SplicedNext(next, order, k, n, prev[cur]);
    SplicedPrev(prev, order, k, n);
    SplicedHolds(entries, order, log, k, e);
    assert (To(cur) == first) == (k == 0) by {
      if k != 0 { assert Apart(order, 0, k); }
    }
    var first' := if To(cur) == first then To(n) else first;
    assert first' == LinkAt(order', 0);
    var next1 := next + [To(cur)];
    var next' := if prev[cur].Nil? then next1 else next1[prev[cur].index := To(n)];
    var prev' := (prev + [prev[cur]])[cur := To(n)];
    assert |next'| == n + 1 && |prev'| == n + 1;
    assert WellLinked(entries + [e], next', prev', first', order', log[..k] + [e] + log[k..]);
  }

  lemma SplicedIndices(order: seq<nat>, k: nat, n: nat)
    requires Indices(order, n) && |order| == n && k < n
    ensures Indices(Spliced(order, k, n), n + 1)
  {
    var order' := Spliced(order, k, n);
    forall i, j ensures Apart(order', i, j) {
      if 0 <= i < |order'| && 0 <= j < |order'| && i != j {
        if i != k && j != k {
          assert Apart(order, if i < k then i else i - 1, if j < k then j else j - 1);
        }
      }
    }
  }

  lemma SplicedHolds(entries: seq<Event>, order: seq<nat>, log: seq<Event>, k: nat, e: Event)
    requires Holds(entries, order, log) && Indices(order, |entries|) && |order| == |entries| && k < |order|
    ensures Holds(entries + [e], Spliced(order, k, |entries|), log[..k] + [e] + log[k..])
  {
  }

  lemma SplicedNext(next: seq<Link>, order: seq<nat>, k: nat, n: nat, before: Link)
    requires Indices(order, n) && NextLinks(next, order) && k < |order| == n == |next|
    requires before == LinkAt(order, k - 1)
    ensures var next1 := next + [To(order[k])];
            NextLinks(if before.Nil? then next1 else next1[before.index := To(n)], Spliced(order, k, n))
  {
    var order' := Spliced(order, k, n);
    var next1 := next + [To(order[k])];
    var next' := if before.Nil? then next1 else next1[before.index := To(n)];
    forall i | 0 <= i < |order'| ensures order'[i] < |next'| && next'[order'[i]] == LinkAt(order', i + 1) {
      if i < k - 1 {
        assert Apart(order, i, k - 1);
      } else if i > k && k > 0 {
        assert Apart(order, i - 1, k - 1);
      }
    }
  }

  lemma SplicedPrev(prev: seq<Link>, order: seq<nat>, k: nat, n: nat)
    requires Indices(order, n) && PrevLinks(prev, order) && k < |order| == n == |prev|
    ensures var cur := order[k];
            PrevLinks((prev + [prev[cur]])[cur := To(n)], Spliced(order, k, n))
  {
    var cur := order[k];
    var order' := Spliced(order, k, n);
    var prev' := (prev + [prev[cur]])[cur := To(n)];
    forall i | 0 <= i < |order'| ensures order'[i] < |prev'| && prev'[order'[i]] == LinkAt(order', i - 1) {
      if i < k {
        assert Apart(order, i, k);
      } else if i > k + 1 {
        assert Apart(order, i - 1, k);
      }
    }
  }
}
