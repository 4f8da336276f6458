/**
 * The wall clock as the grid reads it. A timestamp counts milliseconds since
 * the epoch; `InstantOf` splits it into the calendar day number and the time
 * of day that `new Date()` exposes through `getHours`, `getMinutes`,
 * `getSeconds` and `getMilliseconds`. Day numbers count from the epoch and
 * there is one time zone without daylight saving.
 */
module Clock {

  const MS_PER_SECOND := 1000
  const MS_PER_MINUTE := 60 * MS_PER_SECOND
  const MS_PER_HOUR := 60 * MS_PER_MINUTE
  const MS_PER_DAY := 24 * MS_PER_HOUR

  datatype Instant = Instant(day: int, hour: int, minute: int, second: int, millis: int)

  predicate ValidInstant(i: Instant) {
    && 0 <= i.hour < 24
    && 0 <= i.minute < 60
    && 0 <= i.second < 60
    && 0 <= i.millis < 1000
  }

  /** `Date.getTime()` of an instant. */
  function Timestamp(i: Instant): int {
    i.day * MS_PER_DAY + i.hour * MS_PER_HOUR + i.minute * MS_PER_MINUTE
      + i.second * MS_PER_SECOND + i.millis
  }

  /** The start of hour `hour` of day `day`: `setHours(hour, 0, 0, 0)` on that day. */
  function HourStart(day: int, hour: int): int {
    day * MS_PER_DAY + hour * MS_PER_HOUR
  }

  /** The calendar reading of a timestamp (`new Date(t)`). */
  function InstantOf(t: int): (i: Instant)
    ensures ValidInstant(i) && Timestamp(i) == t
  {
    var r1 := t % MS_PER_DAY;
    var r2 := r1 % MS_PER_HOUR;
    var r3 := r2 % MS_PER_MINUTE;
    Instant(t / MS_PER_DAY, r1 / MS_PER_HOUR, r2 / MS_PER_MINUTE, r3 / MS_PER_SECOND, r3 % MS_PER_SECOND)
  }

  lemma {:induction false} MulAtLeast(k: int, d: int)
    requires 1 <= k && 0 < d
    ensures k * d >= d
  {
    if k > 1 {
      MulAtLeast(k - 1, d);
      assert k * d == (k - 1) * d + d;
    }
  }

  /** Quotient and remainder by a positive divisor are unique. */
  lemma QuotientUnique(q1: int, r1: int, q2: int, r2: int, d: int)
    requires 0 < d && 0 <= r1 < d && 0 <= r2 < d && q1 * d + r1 == q2 * d + r2
    ensures q1 == q2 && r1 == r2
  {
    if q1 < q2 {
      assert q2 * d - q1 * d == (q2 - q1) * d;
      MulAtLeast(q2 - q1, d);
    } else if q2 < q1 {
      assert q1 * d - q2 * d == (q1 - q2) * d;
      MulAtLeast(q1 - q2, d);
    }
  }

  /** A timestamp has exactly one calendar reading. */
  lemma TimestampInjective(i: Instant, j: Instant)
    requires ValidInstant(i) && ValidInstant(j) && Timestamp(i) == Timestamp(j)
    ensures i == j
  {
    var ri := i.hour * MS_PER_HOUR + i.minute * MS_PER_MINUTE + i.second * MS_PER_SECOND + i.millis;
    var rj := j.hour * MS_PER_HOUR + j.minute * MS_PER_MINUTE + j.second * MS_PER_SECOND + j.millis;
    QuotientUnique(i.day, ri, j.day, rj, MS_PER_DAY);
    QuotientUnique(i.hour, ri - i.hour * MS_PER_HOUR, j.hour, rj - j.hour * MS_PER_HOUR, MS_PER_HOUR);
    QuotientUnique(i.minute, i.second * MS_PER_SECOND + i.millis, j.minute, j.second * MS_PER_SECOND + j.millis, MS_PER_MINUTE);
    QuotientUnique(i.second, i.millis, j.second, j.millis, MS_PER_SECOND);
  }

  /** Reading a valid instant back from its timestamp gives the instant. */
  lemma InstantOfTimestamp(i: Instant)
    requires ValidInstant(i)
    ensures InstantOf(Timestamp(i)) == i
  {
    TimestampInjective(InstantOf(Timestamp(i)), i);
  }

  /** Today's day number (`new Date()` with `setHours(0, 0, 0, 0)`). */
  function Today(now: int): (day: int)
    ensures HourStart(day, 0) <= now < HourStart(day, 0) + MS_PER_DAY
  {
    InstantOf(now).day
  }

  /** `new Date().getHours()`. */
  function CurrentHour(now: int): (h: int)
    ensures 0 <= h < 24
  {
    InstantOf(now).hour
  }

  /** The current hour started at or before `now`, and the next one starts after it. */
  lemma CurrentHourContainsNow(now: int)
    ensures HourStart(Today(now), CurrentHour(now)) <= now < HourStart(Today(now), CurrentHour(now)) + MS_PER_HOUR
  {
    var i := InstantOf(now);
    assert now - HourStart(i.day, i.hour) == i.minute * MS_PER_MINUTE + i.second * MS_PER_SECOND + i.millis;
  }
}
