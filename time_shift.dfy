/** Moving the current UTC instant by a clock's offset and reading the
    displayed fields from the result (index.ts, Clock.update, lines 212-220).

    An instant is a whole number of milliseconds since 1970-01-01T00:00:00Z.
    The source builds a local `Date` from the UTC fields of the instant and then
    calls `setMilliseconds(utcMs + offset*60*60*1000)`; ECMAScript truncates that
    millisecond argument toward zero (ToIntegerOrInfinity in MakeTime), so the
    shifted instant is the instant with its millisecond field replaced by the
    truncated sum. Reading the local fields back then gives the calendar fields
    of the shifted instant. */
module TimeShift {
  import Calendar

  const MS_PER_SECOND: int := 1000
  const MS_PER_MINUTE: int := 60000
  const MS_PER_HOUR: int := 3600000
  const MS_PER_DAY: int := 86400000

  /** The fields the source reads from the shifted date: getDate, getHours,
      getMinutes, getSeconds and getMilliseconds. */
  datatype TimeFields = TimeFields(day: int, hour: int, minute: int, second: int, ms: int)

  predicate InRange(f: TimeFields) {
    1 <= f.day <= 31 && 0 <= f.hour < 24 && 0 <= f.minute < 60 && 0 <= f.second < 60 && 0 <= f.ms < 1000
  }

  /** Truncation toward zero of a real number, as ECMAScript's ToIntegerOrInfinity
      does for a finite argument. */
  function Trunc(x: real): (n: int)
    ensures 0.0 <= x ==> 0 <= n && n as real <= x < n as real + 1.0
    ensures x < 0.0 ==> n <= 0 && n as real - 1.0 < x <= n as real
  {
    if x >= 0.0 then x.Floor else -((-x).Floor)
  }

  /** The instant whose fields the clock shows: `utcMs` moved by `offsetHours`
      hours, where the shifted millisecond field is truncated toward zero. It
      lies strictly within one millisecond of the exact sum. */
  function ShiftedInstant(utcMs: int, offsetHours: real): (t: int)
    ensures utcMs as real + offsetHours * 3600000.0 - 1.0 < t as real < utcMs as real + offsetHours * 3600000.0 + 1.0
  {
    var msField := utcMs % MS_PER_SECOND;
    (utcMs - msField) + Trunc(msField as real + offsetHours * 60.0 * 60.0 * 1000.0)
  }

  /** Whole-millisecond offsets (every offset a multiple of 1/3600000 hour, such
      as -4, 3.5 or -7) move the instant by exactly that many milliseconds. */
  lemma ShiftByWholeMilliseconds(utcMs: int, offsetHours: real, k: int)
    requires offsetHours * 3600000.0 == k as real
    ensures ShiftedInstant(utcMs, offsetHours) == utcMs + k
  {
    var msField := utcMs % MS_PER_SECOND;
    assert msField as real + offsetHours * 60.0 * 60.0 * 1000.0 == (msField + k) as real;
  }

  /** Quotient and remainder determine the floor division uniquely. */
  lemma DivUnique(t: int, d: int, q: int, r: int)
    requires 0 < d && 0 <= r < d && t == q * d + r
    ensures t / d == q && t % d == r
  {
    var q0, r0 := t / d, t % d;
    assert (q - q0) * d == r0 - r;
    if q > q0 {
      MulAtLeast(q - q0, d);
    } else if q < q0 {
      MulAtLeast(q0 - q, d);
    }
  }

  lemma {:induction false} MulAtLeast(x: int, d: int)
    requires 1 <= x && 0 < d
    ensures d <= x * d
    decreases x
  {
    if x > 1 {
      MulAtLeast(x - 1, d);
      assert x * d == (x - 1) * d + d;
    }
  }

  /** Dividing by `a` and then by `b` is dividing by `a * b`. */
  lemma {:induction false} DivDiv(t: int, a: int, b: int)
    requires 0 < a && 0 < b
    ensures (t / a) / b == t / (a * b)
    ensures (t / a) % b == (t % (a * b)) / a
  {
    var q1, r1 := t / a, t % a;
    var q2, r2 := q1 / b, q1 % b;
    assert t == q2 * (a * b) + (r2 * a + r1) by {
      calc {
        t;
        q1 * a + r1;
        (q2 * b + r2) * a + r1;
        { assert (q2 * b + r2) * a == q2 * (a * b) + r2 * a; }
        q2 * (a * b) + (r2 * a + r1);
      }
    }
    assert 0 <= r2 * a + r1 < a * b by {
      assert 0 <= r2 <= b - 1;
      assert 0 <= r2 * a;
      assert a * b - r2 * a == (b - r2) * a;
      assert a <= (b - r2) * a by { MulAtLeast(b - r2, a); }
    }
    DivUnique(t, a * b, q2, r2 * a + r1);
    DivUnique(r2 * a + r1, a, r2, r1);
  }

  /** The day, hour, minute, second and millisecond of the instant `t`, read
      with the UTC rules. Together with the day number they rebuild `t`. */
  function Fields(t: int): (f: TimeFields)
    ensures InRange(f)
    ensures f.day == Calendar.CivilFromDays(t / MS_PER_DAY).day
    ensures t == (t / MS_PER_DAY) * MS_PER_DAY + f.hour * MS_PER_HOUR + f.minute * MS_PER_MINUTE
                 + f.second * MS_PER_SECOND + f.ms
  {
    DivDiv(t, MS_PER_SECOND, 60);
    DivDiv(t, MS_PER_MINUTE, 60);
    DivDiv(t, MS_PER_HOUR, 24);
    Calendar.DayOfMonthRange(t / MS_PER_DAY);
    TimeFields(Calendar.CivilFromDays(t / MS_PER_DAY).day,
               (t / MS_PER_HOUR) % 24,
               (t / MS_PER_MINUTE) % 60,
               (t / MS_PER_SECOND) % 60,
               t % MS_PER_SECOND)
  }

  /** The fields a clock with offset `offsetHours` shows at the UTC instant `utcMs`:
      the offset is applied first and the fields are read afterwards. */
  function LocalFields(utcMs: int, offsetHours: real): (f: TimeFields)
    ensures InRange(f)
  {
    Fields(ShiftedInstant(utcMs, offsetHours))
  }

  /** At 1970-01-01T00:00:00Z a clock 3.5 hours ahead shows 03:30 on the 1st,
      and a clock 7 hours behind shows 17:00 on the 31st of the previous month:
      the offset moves the date, not only the hour. */
  lemma OffsetAppliedBeforeExtraction()
    ensures LocalFields(0, 0.0) == TimeFields(1, 0, 0, 0, 0)
    ensures LocalFields(0, 3.5) == TimeFields(1, 3, 30, 0, 0)
    ensures LocalFields(0, -7.0) == TimeFields(31, 17, 0, 0, 0)
  {
    Calendar.EpochDates();
    ShiftByWholeMilliseconds(0, 0.0, 0);
    FieldsAt(0, 0, 0, 0, 0, 0);
    ShiftByWholeMilliseconds(0, 3.5, 12600000);
    FieldsAt(12600000, 0, 3, 30, 0, 0);
    ShiftByWholeMilliseconds(0, -7.0, -25200000);
    FieldsAt(-25200000, -1, 17, 0, 0, 0);
  }

  /** The fields of an instant given by its day number and time of day. */
  lemma FieldsAt(t: int, dayNumber: int, h: int, m: int, s: int, ms: int)
    requires 0 <= h < 24 && 0 <= m < 60 && 0 <= s < 60 && 0 <= ms < 1000
    requires t == dayNumber * MS_PER_DAY + h * MS_PER_HOUR + m * MS_PER_MINUTE + s * MS_PER_SECOND + ms
    ensures Fields(t) == TimeFields(Calendar.CivilFromDays(dayNumber).day, h, m, s, ms)
  {
    var hours := dayNumber * 24 + h;
    var minutes := hours * 60 + m;
    var seconds := minutes * 60 + s;
    DivUnique(t, MS_PER_DAY, dayNumber, h * MS_PER_HOUR + m * MS_PER_MINUTE + s * MS_PER_SECOND + ms);
    DivUnique(t, MS_PER_HOUR, hours, m * MS_PER_MINUTE + s * MS_PER_SECOND + ms);
    DivUnique(hours, 24, dayNumber, h);
    DivUnique(t, MS_PER_MINUTE, minutes, s * MS_PER_SECOND + ms);
    DivUnique(minutes, 60, hours, m);
    DivUnique(t, MS_PER_SECOND, seconds, ms);
    DivUnique(seconds, 60, minutes, s);
  }
}
