/**
 * Wall-clock arithmetic. Instants are milliseconds since the epoch in local time; a local day
 * is numbered by how many whole days separate its midnight from the epoch, so day 0 is
 * Thursday 1 January 1970. Days of the week use the numbering of java.util.Calendar.
 */
module Clock {

  const MINUTE_MS: int := 60_000
  const HOUR_MS: int := 3_600_000
  const DAY_MS: int := 86_400_000

  const SUNDAY: int := 1
  const MONDAY: int := 2
  const TUESDAY: int := 3
  const WEDNESDAY: int := 4
  const THURSDAY: int := 5
  const FRIDAY: int := 6
  const SATURDAY: int := 7

  /** The day an instant falls on (the floor of t / DAY_MS, also for instants before the epoch). */
  function DayOf(t: int): (d: int)
    ensures d * DAY_MS <= t < d * DAY_MS + DAY_MS
  {
    t / DAY_MS
  }

  /** Calendar.DAY_OF_WEEK of day d: Sunday = 1, ..., Saturday = 7. */
  function DayOfWeek(d: int): (w: int)
    ensures SUNDAY <= w <= SATURDAY
    ensures d == 0 ==> w == THURSDAY
  {
    (d + 4) % 7 + 1
  }

  /** Calendar.HOUR_OF_DAY of an instant. */
  function HourOfDay(t: int): (h: int)
    ensures 0 <= h < 24
  {
    (t % DAY_MS) / HOUR_MS
  }

  /** Calendar.MINUTE of an instant. */
  function MinuteOfHour(t: int): (m: int)
    ensures 0 <= m < 60
  {
    (t % HOUR_MS) / MINUTE_MS
  }

  /** An instant offset into day d lies on day d. */
  lemma DayOfOffset(d: int, offset: int)
    requires 0 <= offset < DAY_MS
    ensures DayOf(d * DAY_MS + offset) == d
    ensures (d * DAY_MS + offset) % DAY_MS == offset
  {
    var q := DayOf(d * DAY_MS + offset);
    assert q * DAY_MS <= d * DAY_MS + offset < q * DAY_MS + DAY_MS;
    assert q <= d && d <= q;
  }

  lemma HourOffset(q: int, offset: int)
    requires 0 <= offset < HOUR_MS
    ensures (q * HOUR_MS + offset) / HOUR_MS == q
    ensures (q * HOUR_MS + offset) % HOUR_MS == offset
  {
    var t := q * HOUR_MS + offset;
    var k := t / HOUR_MS;
    assert k * HOUR_MS <= t < k * HOUR_MS + HOUR_MS;
    assert k <= q && q <= k;
  }

  lemma MinuteOffset(q: int, offset: int)
    requires 0 <= offset < MINUTE_MS
    ensures (q * MINUTE_MS + offset) / MINUTE_MS == q
    ensures (q * MINUTE_MS + offset) % MINUTE_MS == offset
  {
    var t := q * MINUTE_MS + offset;
    var k := t / MINUTE_MS;
    assert k * MINUTE_MS <= t < k * MINUTE_MS + MINUTE_MS;
    assert k <= q && q <= k;
  }

  /** The instant of hour h, minute m on day d reads back as day d, h o'clock, minute m, second 0. */
  lemma InstantParts(d: int, h: int, m: int)
    requires 0 <= h < 24 && 0 <= m < 60
    ensures var t := d * DAY_MS + h * HOUR_MS + m * MINUTE_MS;
      DayOf(t) == d && HourOfDay(t) == h && MinuteOfHour(t) == m && t % MINUTE_MS == 0
  {
    var t := d * DAY_MS + h * HOUR_MS + m * MINUTE_MS;
    DayOfOffset(d, h * HOUR_MS + m * MINUTE_MS);
    HourOffset(h, m * MINUTE_MS);
    assert t == (d * 24 + h) * HOUR_MS + m * MINUTE_MS;
    HourOffset(d * 24 + h, m * MINUTE_MS);
    MinuteOffset(m, 0);
    assert t == (d * 1440 + h * 60 + m) * MINUTE_MS + 0;
    MinuteOffset(d * 1440 + h * 60 + m, 0);
  }

  /** Every day of the week turns up within any seven consecutive days. */
  lemma {:induction false} WeekCovers(d: int, w: int)
    requires SUNDAY <= w <= SATURDAY
    ensures exists e :: d <= e < d + 7 && DayOfWeek(e) == w
  {
    var q := (d + 4) % 7;
    var j := (w - 1 - q + 7) % 7;
    assert d + 4 == 7 * ((d + 4) / 7) + q;
    assert (d + j + 4) % 7 == w - 1 by {
      assert d + j + 4 == 7 * ((d + 4) / 7) + q + j;
      if q + j < 7 {
        assert q + j == w - 1;
      } else {
        assert q + j == w - 1 + 7;
      }
    }
    assert d <= d + j < d + 7 && DayOfWeek(d + j) == w;
  }
}
