/**
  Python's naive `datetime.time` and `datetime.datetime`, restricted to what the
  alarm book uses: a time of day with microseconds, a date as a day number, and
  adding a whole number of minutes (`datetime + timedelta(minutes = m)`).
 */
module Clock {

  const SecondsPerDay: nat := 86400
  const MicrosPerSecond: nat := 1000000

  /** The four fields of a `datetime.time`. */
  datatype Time = Time(hour: nat, minute: nat, second: nat, microsecond: nat) {
    /** The ranges `datetime.time` enforces on construction. */
    predicate Valid() {
      hour < 24 && minute < 60 && second < 60 && microsecond < MicrosPerSecond
    }
  }

  /** Every `datetime.time` value is in range. */
  type TimeOfDay = t: Time | t.Valid() witness Time(0, 0, 0, 0)

  /** A naive `datetime.datetime`: the proleptic day number of its date and its time of day. */
  datatype DateTime = DateTime(ordinal: int, time: TimeOfDay)

  /** Whole seconds elapsed since midnight. */
  function SecondsOfDay(t: TimeOfDay): (n: nat)
    ensures n < SecondsPerDay
    ensures n / 60 == t.hour * 60 + t.minute && n % 60 == t.second
  {
    t.hour * 3600 + t.minute * 60 + t.second
  }

  /** The time of day `n` seconds and `micros` microseconds after midnight. */
  function FromSecondsOfDay(n: nat, micros: nat): (t: TimeOfDay)
    requires n < SecondsPerDay && micros < MicrosPerSecond
    ensures SecondsOfDay(t) == n && t.microsecond == micros
  {
    Time(n / 3600, (n % 3600) / 60, n % 60, micros)
  }

  /** Whole seconds of a naive datetime on a single time line (microseconds aside). */
  function Timestamp(dt: DateTime): int {
    dt.ordinal * SecondsPerDay + SecondsOfDay(dt.time)
  }

  /**
    `dt + timedelta(minutes = m)`: the result lies exactly `60 * m` seconds later on
    the time line, with the microseconds carried over; the date absorbs any
    overflow past midnight (in either direction).
   */
  function AddMinutes(dt: DateTime, m: int): (r: DateTime)
    ensures Timestamp(r) == Timestamp(dt) + 60 * m
    ensures r.time.microsecond == dt.time.microsecond
  {
    var total := SecondsOfDay(dt.time) + 60 * m;
    DateTime(dt.ordinal + total / SecondsPerDay,
             FromSecondsOfDay(total % SecondsPerDay, dt.time.microsecond))
  }

  /** A time of day is determined by its seconds since midnight and its microseconds. */
  lemma SecondsOfDayInjective(t: TimeOfDay, u: TimeOfDay)
    requires SecondsOfDay(t) == SecondsOfDay(u) && t.microsecond == u.microsecond
    ensures t == u
  {
    assert t.hour * 60 + t.minute == u.hour * 60 + u.minute;
    assert t.hour == (t.hour * 60 + t.minute) / 60;
    assert u.hour == (u.hour * 60 + u.minute) / 60;
  }

  /** `FromSecondsOfDay` inverts `SecondsOfDay`. */
  lemma SecondsOfDayRoundTrip(t: TimeOfDay)
    ensures FromSecondsOfDay(SecondsOfDay(t), t.microsecond) == t
  {
    SecondsOfDayInjective(FromSecondsOfDay(SecondsOfDay(t), t.microsecond), t);
  }

  /** The time of day of `dt + m minutes` does not depend on the date of `dt`. */
  lemma AddMinutesTimeIgnoresDate(d: int, e: int, t: TimeOfDay, m: int)
    ensures AddMinutes(DateTime(d, t), m).time == AddMinutes(DateTime(e, t), m).time
  {
    var x, y := AddMinutes(DateTime(d, t), m), AddMinutes(DateTime(e, t), m);
    assert SecondsOfDay(x.time) == (SecondsOfDay(t) + 60 * m) % SecondsPerDay by {
      AddMinutesTimeOfDay(DateTime(d, t), m);
    }
    assert SecondsOfDay(y.time) == (SecondsOfDay(t) + 60 * m) % SecondsPerDay by {
      AddMinutesTimeOfDay(DateTime(e, t), m);
    }
    SecondsOfDayInjective(x.time, y.time);
  }

  /** The time of day of `dt + m minutes`, in seconds since midnight, wrapping at midnight. */
  lemma AddMinutesTimeOfDay(dt: DateTime, m: int)
    ensures SecondsOfDay(AddMinutes(dt, m).time) == (SecondsOfDay(dt.time) + 60 * m) % SecondsPerDay
  {
    var r := AddMinutes(dt, m);
    var n := SecondsOfDay(dt.time) + 60 * m;
    assert r.ordinal * SecondsPerDay + SecondsOfDay(r.time) == dt.ordinal * SecondsPerDay + n;
    assert SecondsOfDay(r.time) == n - (r.ordinal - dt.ordinal) * SecondsPerDay;
    ModOfShift(n, r.ordinal - dt.ordinal, SecondsOfDay(r.time));
  }

  /** Helper: `n - k * D` in `[0, D)` is `n % D`. */
  lemma ModOfShift(n: int, k: int, r: int)
    requires r == n - k * SecondsPerDay && 0 <= r < SecondsPerDay
    ensures r == n % SecondsPerDay
  {
  }
}
