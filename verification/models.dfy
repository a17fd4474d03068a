/** The catalog types of the fish finder: a fish, its seasonal windows and its
    daily time ranges. Times of day are minutes since midnight; a well-formed
    "HH:MM" string is the minute count 60 * HH + MM. */
module Models {

  const MinutesPerDay: int := 1440

  /** A well-formed 24-hour clock value, "00:00" (0) to "23:59" (1439). */
  type Minute = t: int | 0 <= t < 1440

  /** The minute count of the clock reading "hh:mm". */
  function Clock(hh: int, mm: int): Minute
    requires 0 <= hh < 24 && 0 <= mm < 60
  {
    hh * 60 + mm
  }

  /** One daily catching window; `start > end` wraps past midnight. */
  datatype TimeRange = TimeRange(start: Minute, end: Minute)

  /** A set of months paired with the daily windows that apply in them. */
  datatype SeasonalAvailability = SeasonalAvailability(months: seq<int>, timeRanges: seq<TimeRange>)

  /** A catalog entry. `caught` is the per-user overlay set on the fish that a
      listing returns. */
  datatype Fish = Fish(
    fishId: string,
    name: string,
    icon: string,
    sellPrice: int,
    shadowSize: string,
    shadowIcon: string,
    location: string,
    northAvailability: seq<SeasonalAvailability>,
    southAvailability: seq<SeasonalAvailability>,
    caught: bool)

  /** The two attributes of a per-user record read from the UserFish table. */
  datatype UserFishRecord = UserFishRecord(sk: string, caught: bool)
}
