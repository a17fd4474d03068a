/** Whether a fish can be caught in a given month at a given time of day:
    month membership, the daily window test with wraparound past midnight,
    and the scan over a fish's seasonal windows. */
module Availability {
  import opened Models

  /** Linear scan of a month list with an early return on the first hit. */
  method ContainsInt(slice: seq<int>, val: int) returns (found: bool)
    ensures found <==> val in slice
    ensures slice == [] ==> !found
  {
    for i := 0 to |slice|
      invariant val !in slice[..i]
    {
      if slice[i] == val {
        return true;
      }
    }
    assert slice[..|slice|] == slice;
    return false;
  }

  /** The daily window test: strict on both bounds; a window whose start is
      not before its end is treated as wrapping past midnight. */
  predicate IsTimeInRange(current: Minute, start: Minute, end: Minute)
  {
    if start < end then
      start < current && current < end
    else
      start < current || current < end
  }

  // --- An independent reading of a window: an arc on a 24-hour clock face ---

  /** Minutes to walk forward around the clock from `from` to `to`. */
  function ClockDistance(from: Minute, to: Minute): (d: int)
    ensures 0 <= d < MinutesPerDay
    ensures d == 0 <==> from == to
  {
    (to - from) % MinutesPerDay
  }

  /** Length of the window's arc; a window that starts where it ends is a full turn. */
  function ArcLength(start: Minute, end: Minute): (n: int)
    ensures 0 < n <= MinutesPerDay
  {
    if start == end then MinutesPerDay else ClockDistance(start, end)
  }

  /** The window test is exactly "strictly inside the arc walked forward from
      `start` to `end`": both end points excluded, and a same-start-and-end
      window is the whole day less its start. */
  lemma IsTimeInRangeIsOpenArc(current: Minute, start: Minute, end: Minute)
    ensures IsTimeInRange(current, start, end)
        <==> 0 < ClockDistance(start, current) < ArcLength(start, end)
  {
    var dc := ClockDistance(start, current);
    if start <= current {
      assert dc == current - start;
    } else {
      assert dc == current - start + MinutesPerDay;
    }
    if start < end {
      assert ArcLength(start, end) == end - start;
    } else if start > end {
      assert ArcLength(start, end) == end - start + MinutesPerDay;
    }
  }

  /** Same-day window: matches exactly the minutes strictly between its ends. */
  lemma SameDayWindow(current: Minute, start: Minute, end: Minute)
    requires start < end
    ensures IsTimeInRange(current, start, end) <==> start < current < end
    ensures !IsTimeInRange(start, start, end) && !IsTimeInRange(end, start, end)
  {
  }

  /** Overnight window: matches after the start or before the end. */
  lemma OvernightWindow(current: Minute, start: Minute, end: Minute)
    requires start > end
    ensures IsTimeInRange(current, start, end) <==> current > start || current < end
    ensures IsTimeInRange(0, start, end) <==> end > 0
    ensures !IsTimeInRange(start, start, end) && !IsTimeInRange(end, start, end)
  {
  }

  /** A window that starts where it ends takes the wraparound branch and
      matches every minute except its start. */
  lemma DegenerateWindow(current: Minute, start: Minute)
    ensures IsTimeInRange(current, start, start) <==> current != start
  {
  }

  // --- One fish's seasonal windows ---

  /** A season matches when it lists the month and one of its windows holds the time. */
  predicate SeasonMatches(season: SeasonalAvailability, month: int, hour: Minute)
  {
    && month in season.months
    && exists j :: 0 <= j < |season.timeRanges|
                   && IsTimeInRange(hour, season.timeRanges[j].start, season.timeRanges[j].end)
  }

  /** Some season in the list matches. */
  predicate Available(seasons: seq<SeasonalAvailability>, month: int, hour: Minute)
  {
    exists k :: 0 <= k < |seasons| && SeasonMatches(seasons[k], month, hour)
  }

  /** Scans the seasons in order and returns on the first window that matches. */
  method IsFishAvailable(seasons: seq<SeasonalAvailability>, month: int, hour: Minute)
    returns (available: bool)
    ensures available <==> Available(seasons, month, hour)
    ensures seasons == [] ==> !available
    ensures (forall k :: 0 <= k < |seasons| ==> seasons[k].timeRanges == []) ==> !available
  {
    for i := 0 to |seasons|
      invariant forall k :: 0 <= k < i ==> !SeasonMatches(seasons[k], month, hour)
    {
      var s := seasons[i];
      var inMonth := ContainsInt(s.months, month);
      if inMonth {
        for j := 0 to |s.timeRanges|
          invariant forall l :: 0 <= l < j ==> !IsTimeInRange(hour, s.timeRanges[l].start, s.timeRanges[l].end)
        {
          var tr := s.timeRanges[j];
          if IsTimeInRange(hour, tr.start, tr.end) {
            assert SeasonMatches(seasons[i], month, hour);
            return true;
          }
        }
      }
    }
    return false;
  }

  /** A fish with a season holding the month and a window that holds the time
      is available, whatever its other seasons say. */
  lemma AvailableWitness(seasons: seq<SeasonalAvailability>, month: int, hour: Minute, k: nat, j: nat)
    requires k < |seasons| && j < |seasons[k].timeRanges|
    requires month in seasons[k].months
    requires IsTimeInRange(hour, seasons[k].timeRanges[j].start, seasons[k].timeRanges[j].end)
    ensures Available(seasons, month, hour)
  {
    assert SeasonMatches(seasons[k], month, hour);
  }
}
