/**
 * `EventServiceImpl`: the time-ordered deque of accepted events with its
 * running totals, and the batch entry point that feeds it line by line.
 * The wall clock is an argument (`now`, or `clock(i)` for line `i`), and
 * each locked section is one sequential step.
 */
module EventService {
  import opened Wrappers
  import opened JavaText
  import opened Numbers
  import opened EventDto
  import opened Window
  import opened Processing

  /** The literal `getStats` returns when the window is empty. */
  const DEFAULT_STATS: string := "0,0.0000000000,0.0000000000,0,0.000"

  /**
   * What `getStats` reports: the fixed zero literal for an empty window,
   * otherwise the count, the sum and mean of `x`, and the sum and mean of `y`.
   */
  datatype Stats =
    | DefaultStats
    | Snapshot(count: int, sumX: real, avgX: real, sumY: int, avgY: real)

  /**
   * The figures for a window, computed afresh from its events: no figures
   * (and no division) for an empty window, otherwise the count, the sums
   * and the means of the events present.
   */
  function StatsOf(s: seq<Event>): (st: Stats)
    ensures st.DefaultStats? <==> s == []
    ensures st.Snapshot? ==> st.count == |s| >= 1 && st.sumX == SumX(s) && st.sumY == SumY(s)
    ensures st.Snapshot? ==> st.avgX * (|s| as real) == SumX(s) && st.avgY * (|s| as real) == SumY(s) as real
  {
    if s == [] then DefaultStats
    else
      var n := |s| as real;
      Snapshot(|s|, SumX(s), SumX(s) / n, SumY(s), SumY(s) as real / n)
  }

  /**
   * On a sorted deque the figures after eviction are those of exactly the
   * events whose timestamps lie inside the window.
   */
  lemma StatsOfWindow(s: seq<Event>, now: int)
    requires Sorted(s)
    ensures StatsOf(Evict(s, now - MINUTE_IN_MILLIS)) == StatsOf(InWindow(s, now - MINUTE_IN_MILLIS))
    ensures StatsOf(Evict(s, now - MINUTE_IN_MILLIS)).DefaultStats?
      <==> forall j :: 0 <= j < |s| ==> s[j].timestamp < now - MINUTE_IN_MILLIS
  {
    var cutoff := now - MINUTE_IN_MILLIS;
    EvictIsFilter(s, cutoff);
    var r := Evict(s, cutoff);
    if r != [] {
      assert s[|s| - |r|] == r[0];
    }
  }

  /**
   * `r` rounded to a whole number, a half going away from zero, as
   * `Formatter` rounds (`RoundingMode.HALF_UP`).
   */
  function RoundHalfUp(r: real): (n: int)
    ensures (n as real) - 0.5 <= r <= (n as real) + 0.5
    ensures r >= 0.0 ==> r < (n as real) + 0.5
    ensures r < 0.0 ==> (n as real) - 0.5 < r
  {
    if r >= 0.0 then (r + 0.5).Floor else 0 - (0.5 - r).Floor
  }

  /** `%.<places>f`: the value rounded to `places` fraction digits, in plain notation. */
  function FixedPoint(r: real, places: nat): string {
    FormatDecimal(Decimal(RoundHalfUp(r * (Pow10(places) as real)), places))
  }

  /**
   * The text `getStats` returns: the fixed literal for an empty window,
   * otherwise `%d,%.10f,%.10f,%d,%.3f` applied to the count, the sum and
   * mean of `x`, and the sum and mean of `y`.
   */
  function Render(st: Stats): string {
    match st
    case DefaultStats => DEFAULT_STATS
    case Snapshot(count, sumX, avgX, sumY, avgY) =>
      Join([IntToString(count), FixedPoint(sumX, 10), FixedPoint(avgX, 10), IntToString(sumY), FixedPoint(avgY, 3)], ",")
  }

  /** A figure written with `FixedPoint` is not empty and holds no `,`. */
  lemma FixedPointPlain(r: real, places: nat)
    ensures FixedPoint(r, places) != [] && ',' !in FixedPoint(r, places)
  {
    var d := Decimal(RoundHalfUp(r * (Pow10(places) as real)), places);
    FormatDecimalPlain(d);
    assert |FormatDecimal(d)| >= |DecimalDigits(d)| >= 1;
  }

  /** Five pieces joined by `,`, written out. */
  lemma JoinFive(a: string, b: string, c: string, d: string, e: string)
    ensures Join([a, b, c, d, e], ",") == a + "," + b + "," + c + "," + d + "," + e
  {
    assert [a, b, c, d, e][1..] == [b, c, d, e];
    assert [b, c, d, e][1..] == [c, d, e];
    assert [c, d, e][1..] == [d, e];
    assert [d, e][1..] == [e];
    assert Join([d, e], ",") == d + "," + e;
    assert Join([c, d, e], ",") == c + "," + (d + "," + e);
    assert Join([b, c, d, e], ",") == b + "," + (c + "," + (d + "," + e));
  }

  /** The text of a snapshot splits on `,` into exactly its five figures, each written as the format writes it. */
  lemma RenderFields(st: Stats)
    requires st.Snapshot?
    ensures JavaSplit(Render(st), ',')
      == [IntToString(st.count), FixedPoint(st.sumX, 10), FixedPoint(st.avgX, 10), IntToString(st.sumY), FixedPoint(st.avgY, 3)]
  {
    var parts := [IntToString(st.count), FixedPoint(st.sumX, 10), FixedPoint(st.avgX, 10), IntToString(st.sumY), FixedPoint(st.avgY, 3)];
    IntToStringShape(st.count);
    IntToStringShape(st.sumY);
    FixedPointPlain(st.sumX, 10);
    FixedPointPlain(st.avgX, 10);
    FixedPointPlain(st.avgY, 3);
    assert forall i :: 0 <= i < |parts| ==> ',' !in parts[i];
    assert Render(st) == Join(parts, [',']);
    JavaSplitJoin(parts, ',');
  }

  /** Zero with `places` fraction digits: a `0`, the point, then the zeros. */
  lemma ZeroFixedPoint(places: nat)
    requires places >= 1
    ensures FixedPoint(0.0, places) == "0." + PadZeros("0", places)
  {
    assert RoundHalfUp(0.0 * (Pow10(places) as real)) == 0;
    assert NatToString(0) == "0";
    var digits := PadZeros("0", places + 1);
    assert digits == "0" + PadZeros("0", places);
    assert digits[..1] == "0" && digits[1..] == PadZeros("0", places);
  }

  /** Zero with ten fraction digits, as `%.10f` writes it. */
  lemma ZeroTenPlaces()
    ensures FixedPoint(0.0, 10) == "0.0000000000"
  {
    ZeroFixedPoint(10);
    assert PadZeros("0", 10) == "0000000000";
  }

  /** Zero with three fraction digits, as `%.3f` writes it. */
  lemma ZeroThreePlaces()
    ensures FixedPoint(0.0, 3) == "0.000"
  {
    ZeroFixedPoint(3);
    assert PadZeros("0", 3) == "000";
  }

  /** The literal for an empty window is what the format writes for five zero figures. */
  lemma DefaultStatsIsZeroFigures()
    ensures Render(Snapshot(0, 0.0, 0.0, 0, 0.0)) == Render(DefaultStats)
  {
    ZeroTenPlaces();
    ZeroThreePlaces();
    assert IntToString(0) == "0";
    JoinFive("0", "0.0000000000", "0.0000000000", "0", "0.000");
    DefaultStatsPieces();
  }

  /** `DEFAULT_STATS` read as five figures separated by commas. */
  lemma DefaultStatsPieces()
    ensures "0" + "," + "0.0000000000" + "," + "0.0000000000" + "," + "0" + "," + "0.000" == DEFAULT_STATS
  {
    var ten := "0.0000000000";
    assert "0" + "," + ten == "0,0.0000000000";
    assert "0,0.0000000000" + "," + ten == "0,0.0000000000,0.0000000000";
    assert "0,0.0000000000,0.0000000000" + "," + "0" == "0,0.0000000000,0.0000000000,0";
    assert "0,0.0000000000,0.0000000000,0" + "," + "0.000" == DEFAULT_STATS;
  }

  class EventServiceImpl {
    /** The accepted events, oldest first. */
    var eventDeque: seq<Event>
    var eventCount: int
    var sumX: real
    var sumY: int

    /** The deque is in timestamp order and the totals describe exactly its events. */
    ghost predicate Valid()
      reads this
    {
      && Sorted(eventDeque)
      && eventCount == |eventDeque|
      && sumX == SumX(eventDeque)
      && sumY == SumY(eventDeque)
    }

    constructor()
      ensures Valid() && eventDeque == []
    {
      eventDeque := [];
      eventCount := 0;
      sumX := 0.0;
      sumY := 0;
    }

    /**
     * `addEvent`: walk back from the tail to the last event whose timestamp
     * is at most `e`'s and insert `e` just after it, or at the front when
     * there is none; then add `e` to the totals.
     */
    method AddEvent(e: Event)
      requires Valid()
      modifies this
      ensures Valid()
      ensures eventDeque == Insert(old(eventDeque), e)
      ensures eventCount == old(eventCount) + 1
      ensures sumX == old(sumX) + Value(e.x) && sumY == old(sumY) + e.y
    {
      ghost var before := eventDeque;
      // `cursor` is the list iterator's position: between elements `cursor - 1` and `cursor`.
      var cursor := |eventDeque|;
      var inserted := false;
      while cursor > 0 && !inserted
        invariant 0 <= cursor <= |eventDeque|
        invariant !inserted ==> eventDeque == before
        invariant !inserted ==> forall j :: cursor <= j < |before| ==> before[j].timestamp > e.timestamp
        invariant inserted ==> eventDeque == Insert(before, e) && cursor >= 2
        invariant eventCount == old(eventCount) && sumX == old(sumX) && sumY == old(sumY)
        decreases !inserted, cursor
      {
        var current := eventDeque[cursor - 1];
        cursor := cursor - 1;
        if current.timestamp <= e.timestamp {
          cursor := cursor + 1;
          InsertionPointUnique(before, e.timestamp, cursor);
          eventDeque := eventDeque[..cursor] + [e] + eventDeque[cursor..];
          cursor := cursor + 1;
          inserted := true;
        }
      }
      if cursor == 0 {
        InsertionPointUnique(before, e.timestamp, 0);
        eventDeque := [e] + eventDeque;
        assert eventDeque == Insert(before, e);
      }
      InsertSorted(before, e);
      InsertTotals(before, e);
      InsertContents(before, e);
      eventCount := eventCount + 1;
      sumX := sumX + Value(e.x);
      sumY := sumY + e.y;
    }

    /**
     * `cleanExpiredEvents`: drop events from the head while they are older
     * than `now` minus one minute, taking each out of the totals.
     */
    method CleanExpiredEvents(now: int)
      requires Valid()
      modifies this
      ensures Valid()
      ensures eventDeque == Evict(old(eventDeque), now - MINUTE_IN_MILLIS)
    {
      var past60Seconds := now - MINUTE_IN_MILLIS;
      while eventDeque != [] && eventDeque[0].timestamp < past60Seconds
        invariant Valid()
        invariant Evict(eventDeque, past60Seconds) == Evict(old(eventDeque), past60Seconds)
        decreases |eventDeque|
      {
        var expiredEvent := eventDeque[0];
        eventDeque := eventDeque[1..];
        eventCount := eventCount - 1;
        sumX := sumX - Value(expiredEvent.x);
        sumY := sumY - expiredEvent.y;
      }
    }

    /** `getStats`: evict, then write out the figures of what is left from the running totals. */
    method GetStats(now: int) returns (text: string)
      requires Valid()
      modifies this
      ensures Valid()
      ensures eventDeque == Evict(old(eventDeque), now - MINUTE_IN_MILLIS)
      ensures text == Render(StatsOf(eventDeque))
    {
      CleanExpiredEvents(now);
      if eventCount == 0 {
        return DEFAULT_STATS;
      }
      var n := eventCount as real;
      var avgX := sumX / n;
      var avgY := sumY as real / n;
      text := Render(Snapshot(eventCount, sumX, avgX, sumY, avgY));
    }

    /**
     * `processLine`: the message `Judge` decides for the line; the event
     * is added to the deque exactly when the line is accepted, after every
     * check has passed.
     */
    method ProcessLine(line: string, now: int) returns (result: string, ghost outcome: LineOutcome)
      requires Valid()
      modifies this
      ensures Valid()
      ensures outcome == Judge(line, now)
      ensures result == OutcomeMessage(outcome)
      ensures eventDeque == AfterLine(old(eventDeque), outcome)
    {
      // Parsing, the age check and validation, in the order `processLine` runs them.
      var judged := Judge(line, now);
      if judged.Accepted? {
        AddEvent(judged.event);
      }
      result := OutcomeMessage(judged);
      outcome := judged;
    }

    /**
     * `validateAndProcessEvents`: split the payload into lines and process
     * them in order, recording each line's message under its 1-based number;
     * line `i` reads the clock as `clock(i)`.
     */
    method ValidateAndProcessEvents(payload: string, clock: int -> int) returns (results: map<int, string>)
      requires Valid()
      modifies this
      ensures Valid()
      ensures results == ResultMap(JavaSplit(payload, '\n'), clock)
      ensures var lines := JavaSplit(payload, '\n');
        eventDeque == InsertAll(old(eventDeque), AcceptedEvents(Outcomes(lines, clock), |lines|))
    {
      results := map[];
      var lines := JavaSplit(payload, '\n');
      // The outcomes of the lines processed so far.
      ghost var seen: seq<LineOutcome> := [];
      for i := 0 to |lines|
        invariant Valid()
        invariant seen == OutcomesUpTo(lines, clock, i)
        invariant results == ResultsUpTo(seen, i)
        invariant eventDeque == InsertAll(old(eventDeque), AcceptedEvents(seen, i))
      {
        ghost var outcome;
        var result;
        result, outcome := ProcessLine(lines[i], clock(i + 1));
        BatchLineStep(lines, clock, i, old(eventDeque), seen, outcome);
        seen := seen + [outcome];
        results := results[i + 1 := result];
      }
    }
  }
}
