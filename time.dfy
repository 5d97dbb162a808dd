/** Dates and timestamps as integers. The wall clock (`datetime.now()`,
    `date.today()`) is never read: callers pass the current instant in, and the
    current date is the day that instant falls on. `datetime.strptime(s, "%Y-%m-%d")`
    is an abstract partial parse handed in as a parameter. */
module Time {
  import opened Wrappers

  /** A point in time, in seconds (a naive local `datetime`). */
  type Instant = int

  /** A calendar date, in days (a `date`). */
  type Day = int

  const SECONDS_PER_DAY: int := 86400

  /** `date.today()` when the clock reads `now`. */
  function Today(now: Instant): (d: Day)
    ensures Midnight(d) <= now < Midnight(d + 1)
  {
    now / SECONDS_PER_DAY
  }

  /** A date taken as a `datetime`: midnight at its start. */
  function Midnight(d: Day): Instant
  {
    d * SECONDS_PER_DAY
  }

  /** `strptime(text, "%Y-%m-%d")`: the date, or `None` where Python raises `ValueError`. */
  type DateParser = string -> Option<Day>

  /** A date's midnight is before `now` exactly when the date is before today,
      or is today and `now` is past midnight. */
  lemma MidnightBeforeNow(d: Day, now: Instant)
    ensures Midnight(d) < now <==> d < Today(now) || (d == Today(now) && now % SECONDS_PER_DAY != 0)
  {
    var t := Today(now);
    assert now == Midnight(t) + now % SECONDS_PER_DAY;
    if d < t {
      assert Midnight(d) <= Midnight(t - 1) by { MidnightMonotone(d, t - 1); }
    } else if d > t {
      assert Midnight(t + 1) <= Midnight(d) by { MidnightMonotone(t + 1, d); }
    }
  }

  lemma MidnightMonotone(a: Day, b: Day)
    requires a <= b
    ensures Midnight(a) <= Midnight(b)
  {
  }
}
