/** The rotation of the three hands (index.ts, Clock.update, lines 222-231).

    Angles are kept exact: they are measured in minute steps, one step being
    2π/60 radians, so a full turn is 60 and the source's correction π/2 is 15.
    Every formula of the source is then rational arithmetic on the fields. */
module AngleMath {
  import opened TimeShift

  /** 2π */
  const FULL_TURN: real := 60.0
  /** `hourAngle`: 2π/12 */
  const HOUR_STEP: real := 5.0
  /** `minuteAngle`: hourAngle/5 */
  const MINUTE_STEP: real := 1.0
  /** `secondAngle`: the same step as the minute hand */
  const SECOND_STEP: real := 1.0
  /** `msAngle`: secondAngle/1000 */
  const MS_STEP: real := 0.001
  /** `currection`: π/2, turning angle zero from three o'clock to twelve o'clock */
  const CORRECTION: real := 15.0

  /** The steps are derived from the full turn as the source derives them. */
  lemma StepsFromFullTurn()
    ensures HOUR_STEP == FULL_TURN / 12.0 && MINUTE_STEP == HOUR_STEP / 5.0
    ensures SECOND_STEP == MINUTE_STEP && MS_STEP == SECOND_STEP / 1000.0
    ensures CORRECTION == FULL_TURN / 4.0
  {
  }

  /** The angles passed to updateHour, updateMinute and updateSecond. */
  datatype HandAngles = HandAngles(hour: real, minute: real, second: real)

  /** `ms`: the sub-second angle the source computes and then never uses. */
  function SubSecondAngle(f: TimeFields): real {
    f.ms as real * MS_STEP
  }

  /** `hour`, `min` and `sec` of the source, each with the carry of the next finer field
      except the second hand, whose millisecond carry is commented out. */
  function Angles(f: TimeFields): HandAngles {
    HandAngles(
      f.hour as real * HOUR_STEP + (f.minute as real * MINUTE_STEP) / 12.0 - CORRECTION,
      f.minute as real * MINUTE_STEP + (f.second as real * SECOND_STEP) / 60.0 - CORRECTION,
      f.second as real * SECOND_STEP - CORRECTION)
  }

  /** The angles of the instant a clock with offset `offsetHours` shows at `utcMs`. */
  function AnglesAt(utcMs: int, offsetHours: real): HandAngles {
    Angles(LocalFields(utcMs, offsetHours))
  }

  /** At 00:00:00 every hand is at -π/2, pointing at twelve o'clock. */
  lemma ZeroPoint(f: TimeFields)
    requires f.hour == 0 && f.minute == 0 && f.second == 0
    ensures Angles(f) == HandAngles(-CORRECTION, -CORRECTION, -CORRECTION)
  {
  }

  /** The millisecond field moves no hand: the sub-second angle is computed but unused. */
  lemma IgnoresMilliseconds(f: TimeFields, ms: int)
    ensures Angles(f.(ms := ms)) == Angles(f)
    ensures 0 <= f.ms < 1000 ==> 0.0 <= SubSecondAngle(f) < SECOND_STEP
  {
  }

  /** The second carry of the minute hand is less than one minute step. */
  lemma SecondCarryBelowOneStep(f: TimeFields)
    requires InRange(f)
    ensures 0.0 <= (f.second as real * SECOND_STEP) / 60.0 < MINUTE_STEP
  {
  }

  /** The minute hand strictly advances in (minute, second) order. */
  lemma MinuteAngleMonotone(f: TimeFields, g: TimeFields)
    requires InRange(f) && InRange(g)
    requires f.minute < g.minute || (f.minute == g.minute && f.second < g.second)
    ensures Angles(f).minute < Angles(g).minute
  {
  }

  /** The minute carry of the hour hand is less than one hour step. */
  lemma MinuteCarryBelowHourStep(f: TimeFields)
    requires InRange(f)
    ensures 0.0 <= (f.minute as real * MINUTE_STEP) / 12.0 < HOUR_STEP
  {
  }

  /** The hour hand strictly advances in (hour, minute) order. */
  lemma HourAngleMonotone(f: TimeFields, g: TimeFields)
    requires InRange(f) && InRange(g)
    requires f.hour < g.hour || (f.hour == g.hour && f.minute < g.minute)
    ensures Angles(f).hour < Angles(g).hour
  {
  }

  /** Hours h and h + 12 put the hour hand exactly one full turn apart. */
  lemma HourAnglePeriodic(f: TimeFields)
    ensures Angles(f.(hour := f.hour + 12)).hour == Angles(f).hour + FULL_TURN
  {
  }

  /** Ranges of the hands over a day: the minute and second hands make less than
      one turn from -π/2, the hour hand less than two. */
  lemma AngleRanges(f: TimeFields)
    requires InRange(f)
    ensures -CORRECTION <= Angles(f).second < FULL_TURN - CORRECTION
    ensures -CORRECTION <= Angles(f).minute < FULL_TURN - CORRECTION
    ensures -CORRECTION <= Angles(f).hour < 2.0 * FULL_TURN - CORRECTION
  {
  }

  /** Independent reading of the angles from an instant: the second hand shows the
      whole seconds of the current minute, the minute hand the whole seconds of the
      current hour over 60, the hour hand the whole minutes of the day over 12. */
  lemma AnglesOfInstant(t: int)
    ensures Angles(Fields(t)).second == ((t % MS_PER_MINUTE) / MS_PER_SECOND) as real - CORRECTION
    ensures Angles(Fields(t)).minute == ((t % MS_PER_HOUR) / MS_PER_SECOND) as real / 60.0 - CORRECTION
    ensures Angles(Fields(t)).hour == ((t % MS_PER_DAY) / MS_PER_MINUTE) as real / 12.0 - CORRECTION
  {
    var f := Fields(t);
    var d := t / MS_PER_DAY;
    SecondOfMinute(t, d, f.hour, f.minute, f.second, f.ms);
    SecondOfHour(t, d, f.hour, f.minute, f.second, f.ms);
    MinuteOfDay(t, d, f.hour, f.minute, f.second, f.ms);
  }

  lemma SecondOfMinute(t: int, d: int, h: int, m: int, s: int, ms: int)
    requires 0 <= s < 60 && 0 <= ms < 1000
    requires t == d * MS_PER_DAY + h * MS_PER_HOUR + m * MS_PER_MINUTE + s * MS_PER_SECOND + ms
    ensures (t % MS_PER_MINUTE) / MS_PER_SECOND == s
  {
    var r := s * MS_PER_SECOND + ms;
    DivUnique(t, MS_PER_MINUTE, (d * 24 + h) * 60 + m, r);
    DivUnique(r, MS_PER_SECOND, s, ms);
  }

  lemma SecondOfHour(t: int, d: int, h: int, m: int, s: int, ms: int)
    requires 0 <= m < 60 && 0 <= s < 60 && 0 <= ms < 1000
    requires t == d * MS_PER_DAY + h * MS_PER_HOUR + m * MS_PER_MINUTE + s * MS_PER_SECOND + ms
    ensures (t % MS_PER_HOUR) / MS_PER_SECOND == m * 60 + s
  {
    var r := m * MS_PER_MINUTE + s * MS_PER_SECOND + ms;
    DivUnique(t, MS_PER_HOUR, d * 24 + h, r);
    DivUnique(r, MS_PER_SECOND, m * 60 + s, ms);
  }

  lemma MinuteOfDay(t: int, d: int, h: int, m: int, s: int, ms: int)
    requires 0 <= h < 24 && 0 <= m < 60 && 0 <= s < 60 && 0 <= ms < 1000
    requires t == d * MS_PER_DAY + h * MS_PER_HOUR + m * MS_PER_MINUTE + s * MS_PER_SECOND + ms
    ensures (t % MS_PER_DAY) / MS_PER_MINUTE == h * 60 + m
  {
    var r := h * MS_PER_HOUR + m * MS_PER_MINUTE + s * MS_PER_SECOND + ms;
    DivUnique(t, MS_PER_DAY, d, r);
    DivUnique(r, MS_PER_MINUTE, h * 60 + m, s * MS_PER_SECOND + ms);
  }

  lemma {:induction false} DivMonotone(a: int, b: int, d: int)
    requires a <= b && 0 < d
    ensures a / d <= b / d
  {
    if a / d > b / d {
      assert a - b == (a / d - b / d) * d + a % d - b % d;
      MulAtLeast(a / d - b / d, d);
    }
  }

  /** Within one day the hour hand never moves back, and within one hour the
      minute hand never moves back. */
  lemma {:induction false} HandsNondecreasingInTime(t1: int, t2: int)
    requires t1 <= t2
    ensures t1 / MS_PER_DAY == t2 / MS_PER_DAY ==> Angles(Fields(t1)).hour <= Angles(Fields(t2)).hour
    ensures t1 / MS_PER_HOUR == t2 / MS_PER_HOUR ==> Angles(Fields(t1)).minute <= Angles(Fields(t2)).minute
  {
    AnglesOfInstant(t1);
    AnglesOfInstant(t2);
    if t1 / MS_PER_DAY == t2 / MS_PER_DAY {
      DivMonotone(t1 % MS_PER_DAY, t2 % MS_PER_DAY, MS_PER_MINUTE);
    }
    if t1 / MS_PER_HOUR == t2 / MS_PER_HOUR {
      DivMonotone(t1 % MS_PER_HOUR, t2 % MS_PER_HOUR, MS_PER_SECOND);
    }
  }

  /** A minute later the second hand is back where it was. */
  lemma SecondHandPeriod(t: int)
    ensures Angles(Fields(t + MS_PER_MINUTE)).second == Angles(Fields(t)).second
  {
    AnglesOfInstant(t);
    AnglesOfInstant(t + MS_PER_MINUTE);
    DivUnique(t + MS_PER_MINUTE, MS_PER_MINUTE, t / MS_PER_MINUTE + 1, t % MS_PER_MINUTE);
  }

  /** An hour later the minute hand is back where it was. */
  lemma MinuteHandPeriod(t: int)
    ensures Angles(Fields(t + MS_PER_HOUR)).minute == Angles(Fields(t)).minute
  {
    AnglesOfInstant(t);
    AnglesOfInstant(t + MS_PER_HOUR);
    DivUnique(t + MS_PER_HOUR, MS_PER_HOUR, t / MS_PER_HOUR + 1, t % MS_PER_HOUR);
  }

  /** Twelve hours later the hour hand has made exactly one whole turn, forward
      before noon and backward after it, so it points the same way. */
  lemma HourHandHalfDay(t: int)
    ensures Angles(Fields(t + 12 * MS_PER_HOUR)).hour - Angles(Fields(t)).hour
              == if Fields(t).hour < 12 then FULL_TURN else -FULL_TURN
  {
    var f := Fields(t);
    var d := t / MS_PER_DAY;
    if f.hour < 12 {
      HalfTurnApart(t, t + 12 * MS_PER_HOUR, d, d, f.hour, f.minute, f.second, f.ms);
    } else {
      HalfTurnApart(t + 12 * MS_PER_HOUR, t, d + 1, d, f.hour - 12, f.minute, f.second, f.ms);
    }
  }

  /** Instants at hour h and at hour h + 12 with the same minute put the hour hand
      one full turn apart, whatever their days. */
  lemma HalfTurnApart(t: int, u: int, d1: int, d2: int, h: int, m: int, s: int, ms: int)
    requires 0 <= h < 12 && 0 <= m < 60 && 0 <= s < 60 && 0 <= ms < 1000
    requires t == d1 * MS_PER_DAY + h * MS_PER_HOUR + m * MS_PER_MINUTE + s * MS_PER_SECOND + ms
    requires u == d2 * MS_PER_DAY + (h + 12) * MS_PER_HOUR + m * MS_PER_MINUTE + s * MS_PER_SECOND + ms
    ensures Angles(Fields(u)).hour == Angles(Fields(t)).hour + FULL_TURN
  {
    FieldsAt(t, d1, h, m, s, ms);
    FieldsAt(u, d2, h + 12, m, s, ms);
    HourAnglePeriodic(Fields(t));
  }

  /** At 03:30:00 the hour hand is at 3·(2π/12) + 30·(2π/60)/12 - π/2,
      a quarter of an hour step past three o'clock. */
  lemma HalfPastThree()
    ensures AnglesAt(0, 3.5) == HandAngles(3.0 * HOUR_STEP + 30.0 * MINUTE_STEP / 12.0 - CORRECTION,
                                           30.0 * MINUTE_STEP - CORRECTION, -CORRECTION)
    ensures AnglesAt(0, 3.5).hour == 2.5
  {
    OffsetAppliedBeforeExtraction();
  }

  /** The same reading at midnight UTC of any 1 January, such as
      2024-01-01T00:00:00Z: 03:30 on the 1st, with the hands as at half past
      three above. */
  lemma NewYearHalfPastThree(year: int)
    ensures LocalFields(Calendar.YearStart(year) * MS_PER_DAY, 3.5) == TimeFields(1, 3, 30, 0, 0)
    ensures AnglesAt(Calendar.YearStart(year) * MS_PER_DAY, 3.5) == AnglesAt(0, 3.5)
  {
    var t := Calendar.YearStart(year) * MS_PER_DAY;
    ShiftByWholeMilliseconds(t, 3.5, 12600000);
    Calendar.CivilRoundTrip(Calendar.CivilDate(year, 1, 1));
    FieldsAt(t + 12600000, Calendar.YearStart(year), 3, 30, 0, 0);
    HalfPastThree();
  }
}
