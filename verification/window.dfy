/**
 * The sliding-window deque of the event service as a value: events in
 * ascending timestamp order, stable insertion from the tail, eviction
 * from the head, and the totals kept beside it.
 */
module Window {
  import opened Numbers
  import opened EventDto

  /** Ascending by timestamp; equal timestamps are allowed. */
  predicate Sorted(s: seq<Event>) {
    forall i, j :: 0 <= i < j < |s| ==> s[i].timestamp <= s[j].timestamp
  }

  /** The sum of `x` over the deque. */
  function SumX(s: seq<Event>): real {
    if s == [] then 0.0 else Value(s[0].x) + SumX(s[1..])
  }

  /** The sum of `y` over the deque. */
  function SumY(s: seq<Event>): int {
    if s == [] then 0 else s[0].y + SumY(s[1..])
  }

  lemma {:induction false} SumsAppend(a: seq<Event>, b: seq<Event>)
    ensures SumX(a + b) == SumX(a) + SumX(b)
    ensures SumY(a + b) == SumY(a) + SumY(b)
  {
    if a == [] {
      assert a + b == b;
    } else {
      assert (a + b)[1..] == a[1..] + b;
      SumsAppend(a[1..], b);
    }
  }

  /**
   * Where the backward scan from the tail stops: just after the last
   * element whose timestamp is at most `t`, or the front when there is none.
   */
  function InsertionPoint(s: seq<Event>, t: int): (k: nat)
    ensures k <= |s|
    ensures forall j :: k <= j < |s| ==> s[j].timestamp > t
    ensures k > 0 ==> s[k - 1].timestamp <= t
  {
    if s == [] then 0
    else if s[|s| - 1].timestamp <= t then |s|
    else InsertionPoint(s[..|s| - 1], t)
  }

  /** The only index with nothing later at most `t` and the element before at most `t`. */
  lemma InsertionPointUnique(s: seq<Event>, t: int, k: nat)
    requires k <= |s|
    requires forall j :: k <= j < |s| ==> s[j].timestamp > t
    requires k > 0 ==> s[k - 1].timestamp <= t
    ensures InsertionPoint(s, t) == k
  {
  }

  /** The deque after `addEvent`: `e` placed at the insertion point. */
  function Insert(s: seq<Event>, e: Event): seq<Event> {
    var k := InsertionPoint(s, e.timestamp);
    s[..k] + [e] + s[k..]
  }

  /**
   * Insertion puts `e` after every element with a timestamp at most its
   * own (so after equal timestamps already present) and before every later one.
   */
  lemma InsertPlacement(s: seq<Event>, e: Event)
    requires Sorted(s)
    ensures var r, k := Insert(s, e), InsertionPoint(s, e.timestamp);
      && r[k] == e
      && (forall j :: 0 <= j < k ==> r[j].timestamp <= e.timestamp)
      && (forall j :: k < j < |r| ==> r[j].timestamp > e.timestamp)
  {
    var r, k := Insert(s, e), InsertionPoint(s, e.timestamp);
    InsertIndices(s, e);
    BeforeInsertionPoint(s, e.timestamp);
    assert forall j :: 0 <= j < k ==> r[j].timestamp <= e.timestamp by {
      forall j | 0 <= j < k
        ensures r[j].timestamp <= e.timestamp
      {
        assert r[j] == s[j];
      }
    }
    assert forall j :: k < j < |r| ==> r[j].timestamp > e.timestamp by {
      forall j | k < j < |r|
        ensures r[j].timestamp > e.timestamp
      {
        assert r[j] == s[j - 1];
      }
    }
  }

  /** Taking `e` out again gives back the old deque: the existing elements keep their order. */
  lemma InsertKeepsOrder(s: seq<Event>, e: Event)
    ensures var r, k := Insert(s, e), InsertionPoint(s, e.timestamp);
      |r| == |s| + 1 && r[..k] + r[k + 1..] == s
  {
    var r, k := Insert(s, e), InsertionPoint(s, e.timestamp);
    assert r[..k] == s[..k];
    assert r[k + 1..] == s[k..];
  }

  /** In a sorted deque every element before the insertion point of `t` is at most `t`. */
  lemma BeforeInsertionPoint(s: seq<Event>, t: int)
    requires Sorted(s)
    ensures forall j :: 0 <= j < InsertionPoint(s, t) ==> s[j].timestamp <= t
  {
    var k := InsertionPoint(s, t);
    forall j | 0 <= j < k
      ensures s[j].timestamp <= t
    {
      assert s[j].timestamp <= s[k - 1].timestamp;
    }
  }

  /** Where each element of the old deque lands after insertion. */
  lemma InsertIndices(s: seq<Event>, e: Event)
    ensures var r, k := Insert(s, e), InsertionPoint(s, e.timestamp);
      && |r| == |s| + 1 && r[k] == e
      && (forall j :: 0 <= j < k ==> r[j] == s[j])
      && (forall j :: k < j < |r| ==> r[j] == s[j - 1])
  {
    var r, k := Insert(s, e), InsertionPoint(s, e.timestamp);
    var before, after := s[..k], s[k..];
    assert r == before + [e] + after;
    assert forall j :: 0 <= j < k ==> r[j] == before[j];
    assert forall j :: k < j < |r| ==> r[j] == after[j - k - 1];
  }

  /** `addEvent` keeps the deque sorted. */
  lemma InsertSorted(s: seq<Event>, e: Event)
    requires Sorted(s)
    ensures Sorted(Insert(s, e))
  {
    var r, k := Insert(s, e), InsertionPoint(s, e.timestamp);
    InsertPlacement(s, e);
    InsertIndices(s, e);
    forall i, j | 0 <= i < j < |r|
      ensures r[i].timestamp <= r[j].timestamp
    {
      if j < k {
        assert s[i].timestamp <= s[j].timestamp;
      } else if i > k {
        assert s[i - 1].timestamp <= s[j - 1].timestamp;
      }
    }
  }

  /** Insertion adds `e` once and nothing else. */
  lemma InsertContents(s: seq<Event>, e: Event)
    ensures multiset(Insert(s, e)) == multiset(s) + multiset{e}
    ensures |Insert(s, e)| == |s| + 1
  {
    var k := InsertionPoint(s, e.timestamp);
    assert s == s[..k] + s[k..];
  }

  /** The totals after insertion are the old totals plus the new event. */
  lemma InsertTotals(s: seq<Event>, e: Event)
    ensures SumX(Insert(s, e)) == SumX(s) + Value(e.x)
    ensures SumY(Insert(s, e)) == SumY(s) + e.y
  {
    var k := InsertionPoint(s, e.timestamp);
    SumsAppend(s[..k] + [e], s[k..]);
    SumsAppend(s[..k], [e]);
    SumsAppend(s[..k], s[k..]);
    assert s == s[..k] + s[k..];
    assert SumX([e]) == Value(e.x) + SumX([]);
    assert SumY([e]) == e.y + SumY([]);
  }

  /**
   * Arrival order does not matter for events with different timestamps:
   * inserting `a` then `b` into a sorted deque gives the same deque as
   * inserting `b` then `a`.
   */
  lemma InsertCommutes(s: seq<Event>, a: Event, b: Event)
    requires Sorted(s)
    requires a.timestamp != b.timestamp
    ensures Insert(Insert(s, a), b) == Insert(Insert(s, b), a)
  {
    if a.timestamp > b.timestamp {
      InsertCommutesOrdered(s, b, a);
    } else {
      InsertCommutesOrdered(s, a, b);
    }
  }

  lemma InsertCommutesOrdered(s: seq<Event>, a: Event, b: Event)
    requires Sorted(s)
    requires a.timestamp < b.timestamp
    ensures Insert(Insert(s, a), b) == Insert(Insert(s, b), a)
  {
    var ka, kb := InsertionPoint(s, a.timestamp), InsertionPoint(s, b.timestamp);
    assert ka <= kb;
    InsertEarlierThenLater(s, a, b, ka, kb);
    InsertLaterThenEarlier(s, a, b, ka, kb);
  }

  /** Element `j` of the deque after inserting `e`. */
  lemma InsertIndex(s: seq<Event>, e: Event, j: int)
    requires 0 <= j <= |s|
    ensures var k := InsertionPoint(s, e.timestamp);
      Insert(s, e)[j] == if j < k then s[j] else if j == k then e else s[j - 1]
  {
    InsertIndices(s, e);
  }

  /** Inserting the earlier event first: the later one lands one place further on. */
  lemma InsertEarlierThenLater(s: seq<Event>, a: Event, b: Event, ka: nat, kb: nat)
    requires a.timestamp < b.timestamp
    requires ka == InsertionPoint(s, a.timestamp) && kb == InsertionPoint(s, b.timestamp) && ka <= kb
    ensures Insert(Insert(s, a), b) == s[..ka] + [a] + s[ka..kb] + [b] + s[kb..]
  {
    var sa := Insert(s, a);
    assert InsertionPoint(sa, b.timestamp) == kb + 1 by {
      InsertIndex(s, a, kb);
      forall j | kb + 1 <= j < |sa|
        ensures sa[j].timestamp > b.timestamp
      {
        InsertIndex(s, a, j);
      }
      InsertionPointUnique(sa, b.timestamp, kb + 1);
    }
    SplitTwice(s, a, b, ka, kb);
  }

  lemma SplitTwice(s: seq<Event>, a: Event, b: Event, ka: nat, kb: nat)
    requires ka <= kb <= |s|
    ensures var sa := s[..ka] + [a] + s[ka..];
      sa[..kb + 1] + [b] + sa[kb + 1..] == s[..ka] + [a] + s[ka..kb] + [b] + s[kb..]
  {
    var sa := s[..ka] + [a] + s[ka..];
    assert sa[..kb + 1] == s[..ka] + [a] + s[ka..kb];
    assert sa[kb + 1..] == s[kb..];
  }

  /** Inserting the later event first: the earlier one lands where it would have anyway. */
  lemma InsertLaterThenEarlier(s: seq<Event>, a: Event, b: Event, ka: nat, kb: nat)
    requires a.timestamp < b.timestamp
    requires ka == InsertionPoint(s, a.timestamp) && kb == InsertionPoint(s, b.timestamp) && ka <= kb
    ensures Insert(Insert(s, b), a) == s[..ka] + [a] + s[ka..kb] + [b] + s[kb..]
  {
    var sb := Insert(s, b);
    assert InsertionPoint(sb, a.timestamp) == ka by {
      if ka > 0 {
        InsertIndex(s, b, ka - 1);
      }
      forall j | ka <= j < |sb|
        ensures sb[j].timestamp > a.timestamp
      {
        InsertIndex(s, b, j);
      }
      InsertionPointUnique(sb, a.timestamp, ka);
    }
    SplitBefore(s, a, b, ka, kb);
  }

  lemma SplitBefore(s: seq<Event>, a: Event, b: Event, ka: nat, kb: nat)
    requires ka <= kb <= |s|
    ensures var sb := s[..kb] + [b] + s[kb..];
      sb[..ka] + [a] + sb[ka..] == s[..ka] + [a] + s[ka..kb] + [b] + s[kb..]
  {
    var sb := s[..kb] + [b] + s[kb..];
    assert sb[..ka] == s[..ka];
    assert sb[ka..] == s[ka..kb] + [b] + s[kb..];
  }

  /**
   * The deque after `cleanExpiredEvents`: the longest prefix whose
   * timestamps are all below `cutoff` is removed.
   */
  function Evict(s: seq<Event>, cutoff: int): (r: seq<Event>)
    ensures |r| <= |s| && r == s[|s| - |r|..]
    ensures forall j :: 0 <= j < |s| - |r| ==> s[j].timestamp < cutoff
    ensures r == [] || r[0].timestamp >= cutoff
  {
    if s != [] && s[0].timestamp < cutoff then Evict(s[1..], cutoff) else s
  }

  /** A second eviction with the same cutoff removes nothing. */
  lemma EvictIdempotent(s: seq<Event>, cutoff: int)
    ensures Evict(Evict(s, cutoff), cutoff) == Evict(s, cutoff)
  {
  }

  /** After eviction a sorted deque is still sorted and lies wholly inside the window. */
  lemma {:induction false} EvictSorted(s: seq<Event>, cutoff: int)
    requires Sorted(s)
    ensures Sorted(Evict(s, cutoff))
    ensures forall j :: 0 <= j < |Evict(s, cutoff)| ==> Evict(s, cutoff)[j].timestamp >= cutoff
  {
    if s != [] && s[0].timestamp < cutoff {
      SortedTail(s);
      EvictSorted(s[1..], cutoff);
    } else if s != [] {
      forall j | 0 <= j < |s|
        ensures s[j].timestamp >= cutoff
      {
        assert s[0].timestamp <= s[j].timestamp;
      }
    }
  }

  /** Dropping the head keeps a deque sorted. */
  lemma SortedTail(s: seq<Event>)
    requires Sorted(s) && s != []
    ensures Sorted(s[1..])
  {
    forall i, j | 0 <= i < j < |s| - 1
      ensures s[1..][i].timestamp <= s[1..][j].timestamp
    {
      assert s[1..][i] == s[i + 1] && s[1..][j] == s[j + 1];
    }
  }

  /** The totals after eviction are the old totals minus the removed prefix. */
  lemma EvictTotals(s: seq<Event>, cutoff: int)
    ensures var r := Evict(s, cutoff);
      && SumX(r) == SumX(s) - SumX(s[..|s| - |r|])
      && SumY(r) == SumY(s) - SumY(s[..|s| - |r|])
  {
    var r := Evict(s, cutoff);
    SumsAppend(s[..|s| - |r|], r);
    assert s[..|s| - |r|] + r == s;
  }

  /** The events of `s` whose timestamps are at least `cutoff`, in order. */
  function InWindow(s: seq<Event>, cutoff: int): seq<Event> {
    if s == [] then []
    else (if s[0].timestamp >= cutoff then [s[0]] else []) + InWindow(s[1..], cutoff)
  }

  /**
   * On a sorted deque, evicting from the head keeps exactly the events
   * inside the window: the same result as filtering the whole deque.
   */
  lemma {:induction false} EvictIsFilter(s: seq<Event>, cutoff: int)
    requires Sorted(s)
    ensures Evict(s, cutoff) == InWindow(s, cutoff)
  {
    if s != [] {
      assert Sorted(s[1..]);
      if s[0].timestamp < cutoff {
        EvictIsFilter(s[1..], cutoff);
      } else {
        InWindowAll(s, cutoff);
      }
    }
  }

  lemma {:induction false} InWindowAll(s: seq<Event>, cutoff: int)
    requires forall j :: 0 <= j < |s| ==> s[j].timestamp >= cutoff
    ensures InWindow(s, cutoff) == s
  {
    if s != [] {
      InWindowAll(s[1..], cutoff);
      assert [s[0]] + s[1..] == s;
    }
  }
}
