# SVG analog clock: a Dafny model of its time and layout engine

The repository draws analog clocks as SVG. Each `Clock` shows the current time
moved by a fixed, possibly fractional, number of hours from UTC. When it is
built, a clock measures its container, draws a face of sixty tick marks and
the hour numerals, and creates three hands and a date readout. Once a second
it recomputes the shifted time, turns the time into three hand angles and
moves the hands and the readout.

This project models that engine in Dafny:

- `Decimal` (decimal.dfy): the decimal text of a whole number below 10^21, as
  `Number.prototype.toString` writes it, and its reading back.
- `DateReadout` (date_readout.dfy): the date readout's day text, padded with
  a leading "0" below 10.
- `Calendar` (calendar.dfy): the proleptic Gregorian calendar that `Date` uses
  to turn a day count into a day of month, with its inverse (for the years
  0 to 99, see `TimeShift.LocalFields` under "Left out").
- `TimeShift` (time_shift.dfy): moving a UTC instant by the clock's offset the
  way `setMilliseconds` does, and reading the day, hour, minute, second and
  millisecond fields of the result.
- `AngleMath` (angle_math.dfy): the hand angles computed from those fields.
  Angles are exact rationals counted in minute steps of 2π/60: a full turn is
  60, an hour step 5, the quarter-turn correction π/2 is 15.
- `Geometry` (geometry.dfy): symbolic points `Polar(cx, cy, rx, ry, angle)`
  standing for (cx + rx·cos θ, cy + ry·sin θ), θ = angle·2π/60, and the hand
  endpoints.
- `FaceLayout` (face_layout.dfy): the sequence of tick marks and numerals the
  face loop appends, with lemmas describing the finished face.
- `SvgClock` (clock.dfy): the `Clock` class itself, with the SVG nodes it
  keeps as small objects (`Group`, `LineNode`, `TextNode`). Its constructor,
  `AddTicks` loop and update methods change those objects in place and are
  proved against the functions above. In index.ts the class keeps only the
  hands and the date text as fields; the face group is a local of
  `renderFace` (index.ts:45). The model keeps it as a field so that the drawn
  face can be stated.

Two details of the code shape what the clock shows:

- Pass 0 of the face loop emits no numeral (`if (j)`, index.ts:93). Over the
  sixty passes, one per minute mark, the face carries the eleven numerals 1
  to 11 and none at twelve o'clock (`FaceLayout.HourLabels`,
  `FaceLayout.NoTwelve`). The loop as written in floating point makes a 61st
  pass, which adds a "12" at twelve o'clock (see "Findings").
- The offset is added to the millisecond field through `setMilliseconds`
  (index.ts:214), which truncates the sum toward zero. The model keeps that
  truncation (`TimeShift.ShiftedInstant`). For every offset that is a whole
  number of milliseconds it is the plain shift
  (`TimeShift.ShiftByWholeMilliseconds`).

## Model

| member | source | states |
|---|---|---|
| Decimal.NatToString | index.ts:100 | the text of a number is non-empty, all digits, and starts with '0' only for 0 |
| Decimal.DigitsValueOfNatToString | index.ts:100 | the text of n reads back as n |
| Decimal.NatToStringLength | index.ts:135 | the text has one digit exactly below 10, two from 10 to 99 |
| Decimal.NatToStringInjective | index.ts:100 | different numbers get different texts |
| DateReadout.DateText | index.ts:134-137 | the readout is all digits, reads back as the day, starts with '0' exactly for days below 10, and has two characters for days below 100 |
| DateReadout.DateTextOfMonthDay | index.ts:135 | every day 1 to 31 is shown as two characters: "0" and the digit below 10, the plain number from 10 |
| Calendar.YearAndDay | index.ts:216 | splits a day count into a year and a day of that year, inside the year, adding up to the same day number |
| Calendar.MonthFrom | index.ts:216 | finds the month whose days hold the given day of the year |
| Calendar.CivilFromDays | index.ts:216 | the date of a day number is a valid date whose day number is the input |
| Calendar.CivilRoundTrip | index.ts:216 | the date of the day number of a valid date is that date |
| Calendar.DaysFromCivilInjective | index.ts:216 | distinct valid dates have distinct day numbers |
| Calendar.DayOfMonthRange | index.ts:216 | every day of month read from an instant lies in 1..31 |
| Calendar.EpochDates | index.ts:216 | day 0 is 1970-01-01 and day -1 is 1969-12-31 |
| TimeShift.Trunc | index.ts:214 | the millisecond argument is truncated toward zero: within one of the real number, on its side of zero |
| TimeShift.ShiftedInstant | index.ts:213-214 | the shifted instant lies strictly within one millisecond of the instant plus the offset in milliseconds |
| TimeShift.ShiftByWholeMilliseconds | index.ts:214 | an offset of a whole number k of milliseconds moves the instant by exactly k |
| TimeShift.Fields | index.ts:216-220 | the fields are in range, the day is the day of month of the instant's day number, and day number and fields rebuild the instant |
| TimeShift.FieldsAt | index.ts:216-220 | an instant given as day number and time of day has exactly those fields |
| TimeShift.LocalFields | index.ts:212-220 | the fields a clock shows are always in range |
| TimeShift.OffsetAppliedBeforeExtraction | index.ts:212-220 | at the epoch, offset 0 shows 00:00 on the 1st, offset 3.5 shows 03:30 on the 1st, offset -7 shows 17:00 on the 31st: the offset is applied before the fields are read |
| AngleMath.StepsFromFullTurn | index.ts:222-227 | the hour, minute, second and millisecond steps and the correction derive from the full turn as in the source |
| AngleMath.SubSecondAngle | index.ts:228 | no contract of its own: the millisecond angle `ms`, computed and never used; IgnoresMilliseconds states that it moves no hand and is below one second step |
| AngleMath.Angles | index.ts:229-231 | no contract of its own: the hour, minute and second angles of the fields in minute steps; ZeroPoint to AngleRanges, HalfTurnApart and AnglesOfInstant state its properties |
| AngleMath.AnglesAt | index.ts:212-231 | no contract of its own: the angles of the fields the clock reads from the shifted instant; AnglesOfInstant, HandsNondecreasingInTime, the period lemmas, HalfPastThree and NewYearHalfPastThree state its properties |
| AngleMath.ZeroPoint | index.ts:227-231 | at 00:00:00 all three hands are at -π/2, twelve o'clock |
| AngleMath.IgnoresMilliseconds | index.ts:228-229 | the millisecond field moves no hand; the unused sub-second angle is below one second step |
| AngleMath.SecondCarryBelowOneStep | index.ts:230 | the seconds' carry on the minute hand is less than one minute step |
| AngleMath.MinuteAngleMonotone | index.ts:230 | the minute hand strictly advances in (minute, second) order |
| AngleMath.MinuteCarryBelowHourStep | index.ts:231 | the minutes' carry on the hour hand is less than one hour step |
| AngleMath.HourAngleMonotone | index.ts:231 | the hour hand strictly advances in (hour, minute) order |
| AngleMath.HourAnglePeriodic | index.ts:231 | hours h and h + 12 put the hour hand one full turn apart |
| AngleMath.AngleRanges | index.ts:229-231 | over a day the second and minute hands stay within one turn from -π/2, the hour hand within two |
| AngleMath.AnglesOfInstant | index.ts:216-231 | the hands read directly from the instant: seconds of the minute, seconds of the hour over 60, minutes of the day over 12 |
| AngleMath.HandsNondecreasingInTime | index.ts:216-231 | within one day the hour hand never moves back; within one hour the minute hand never moves back |
| AngleMath.SecondHandPeriod | index.ts:229 | one minute later the second hand is where it was |
| AngleMath.MinuteHandPeriod | index.ts:230 | one hour later the minute hand is where it was |
| AngleMath.HourHandHalfDay | index.ts:231 | twelve hours later the hour hand is one full turn away, forward before noon and backward after |
| AngleMath.HalfTurnApart | index.ts:216-231 | instants at hour h and h + 12 with the same minute put the hour hand one turn apart, whatever their days |
| AngleMath.HalfPastThree | index.ts:212-231 | at the epoch with offset 3.5 the hands are at 3·hour step + 30·minute step/12 - π/2, 30·minute step - π/2 and -π/2 |
| AngleMath.NewYearHalfPastThree | index.ts:212-231 | at midnight UTC of any 1 January (2024-01-01 included) offset 3.5 shows 03:30 on the 1st with the same hands |
| Geometry.HourTip | index.ts:196-197 | no contract of its own: the hour hand's endpoint, radius mid/2 about (mid, mid); HandsOnCircles states its distance from the centre |
| Geometry.MinuteTip | index.ts:201-202 | no contract of its own: the minute hand's endpoint, mid/1.5 across and mid/1.6 down about (mid, mid); MinuteTipNotCircular states its distances |
| Geometry.SecondTip | index.ts:206-207 | no contract of its own: the second hand's endpoint, radius mid/1.28 about (mid, mid); HandsOnCircles states its distance from the centre |
| Geometry.OnCircleDistance | index.ts:195-208 | a point with equal radii r about a centre is at distance r from it for every cosine c and sine s with c² + s² = 1 |
| Geometry.HandsOnCircles | index.ts:195-208 | at every angle (cosine c, sine s, c² + s² = 1) the hour and second tips are mid/2 and mid/1.28 from the centre, both inside the face |
| Geometry.MinuteTipNotCircular | index.ts:200-203 | the minute tip is mid/1.5 from the centre at three o'clock but mid/1.6 at six o'clock: its path is not a circle |
| FaceLayout.TickAt | index.ts:68-88 | no contract of its own: the tick of pass j; TickClassification states its angle and radii |
| FaceLayout.LabelAt | index.ts:90-101 | no contract of its own: the numeral of pass j; LabelsUpTo and NumeralProperties state its text and position |
| FaceLayout.Pass | index.ts:85-109 | no contract of its own: what pass j appends, the numeral before the tick; TicksUpTo, HourTicksUpTo and LabelsUpTo state its effect |
| FaceLayout.LayoutUpTo | index.ts:66-111 | no contract of its own: what the first n passes append; TicksUpTo, HourTicksUpTo, LabelsUpTo and CountTicksOnly state its contents |
| FaceLayout.Layout | index.ts:66-111 | no contract of its own: the sixty-pass face; TickClassification, TwelveHourTicks, LabelsOfLayout, HourLabels and NoTwelve state its contents |
| FaceLayout.AsWrittenLayout | index.ts:66-111 | no contract of its own: the 61-pass face of the loop as written in binary64; AsWrittenExtraPass states its contents |
| FaceLayout.TicksUpTo | index.ts:66-111 | after n passes the face holds n ticks, tick k being that of pass k |
| FaceLayout.TickClassification | index.ts:66-111 | over the sixty passes, the face holds 60 ticks; tick k is at angle k, starts on the ring of radius mid/1.1 and ends at mid/1.20 when k is a multiple of 5, at mid/1.15 otherwise |
| FaceLayout.HourTicksUpTo | index.ts:85-88 | after n passes, (n + 4)/5 long ticks have been appended |
| FaceLayout.TwelveHourTicks | index.ts:85-88 | over the sixty passes, on a face of positive size exactly 12 of the ticks are long hour ticks |
| FaceLayout.CountTicksOnly | index.ts:93-101 | numerals never count as hour ticks |
| FaceLayout.LabelsUpTo | index.ts:85-102 | after n passes the numerals are those of hours 1 to (n - 1)/5, in order |
| FaceLayout.LabelsOfLayout | index.ts:85-102 | over the sixty passes, the face holds exactly the numerals of hours 1 to 11, in order |
| FaceLayout.NumeralProperties | index.ts:90-100 | the numeral of hour h reads as h, is not "12", and sits on the radius mid/1.4 circle about (mid, mid + 5) at angle 5h - 15 |
| FaceLayout.HourLabels | index.ts:85-102 | over the sixty passes, the face carries 11 numerals, the k-th reading k + 1, on the numeral circle at the angle of its hour |
| FaceLayout.NoTwelve | index.ts:93 | over the sixty passes, no numeral on the face reads "12" |
| FaceLayout.AsWrittenExtraPass | index.ts:66-111 | the 61 passes of the loop as written append, after the sixty-pass face, the numeral "12" at angle 45 and a long tick at angle 60 over tick 0: 61 ticks, 13 long, 12 numerals |
| SvgClock.MidPoint | index.ts:20-22 | the drawing's half-size is half the smaller of the container's width and height |
| SvgClock.HourHandOnNumeral | index.ts:90-92 | on the hour, from 1 to 11, the numeral of that hour has the hour hand's angle and reads as the hour |
| SvgClock.MinuteHandOnTick | index.ts:66-90 | on a whole minute one tick has the minute hand's angle (plus a full turn before a quarter past), a long one exactly on multiples of five minutes |
| SvgClock.Clock.constructor | index.ts:10-41 | a new clock keeps its offset, its face group holds the whole layout, the hands start at the centre, and the nodes show the time at the given instant |
| SvgClock.Clock.Shows | index.ts:233-236 | no contract of its own: the node state update leaves, the padded local day and each tip at its hand's angle; the constructor and Update ensure it |
| SvgClock.Clock.AddTicks | index.ts:61-112 | the loop appends the sixty-pass face layout to the group, after what it already held |
| SvgClock.Clock.UpdateDate | index.ts:134-137 | the readout text becomes the padded day |
| SvgClock.Clock.UpdateHour | index.ts:195-198 | the hour hand's endpoint becomes the hour tip at the given angle |
| SvgClock.Clock.UpdateMinute | index.ts:200-203 | the minute hand's endpoint becomes the minute tip at the given angle |
| SvgClock.Clock.UpdateSecond | index.ts:205-208 | the second hand's endpoint becomes the second tip at the given angle |
| SvgClock.Clock.Update | index.ts:210-239 | afterwards the readout shows the padded local day and each hand points at the angle of the local time for the given instant |

## Left out

- SVG element creation, attributes that only style the drawing (stroke widths, font sizes, text anchors, class names, fill colours), the face circle, the centre dot and the date rectangle: they compute no state the clock reads back.
- Measuring the container: its width and height are constructor parameters.
- Reading the clock: the current UTC instant is a parameter of `Update` and of the constructor.
- Scheduling with `setInterval` and `requestAnimationFrame`: each tick of the timer is one call of `Update`.
- The module-level clock instances and the style sheet: they only configure.
- Floating point: angles, radii and the offset product are exact rationals, and sine and cosine are never evaluated; a point is kept as its centre, radii and angle.
- SvgClock.Clock.AddTicks: runs the 60 passes of exact arithmetic. In binary64 the sum of sixty steps of 2π/60 is 6.283185307179582, below 2π = 6.283185307179586, so the program makes a 61st pass (j = 60) that appends the numeral "12" at angle 45 and a second long tick over tick 0. `FaceLayout.AsWrittenExtraPass` states that face; the method does not.
- TimeShift.LocalFields: assumes the host's time zone keeps one offset from UTC around the instant (no daylight-saving change); the shown fields then do not depend on the host zone, while across a daylight-saving change the source's rebuilt local date could be off by the change.
- TimeShift.LocalFields: reads the proleptic Gregorian date directly. For instants in the UTC years 0 to 99, `new Date(y, …)` (index.ts:213) rebuilds the date in the year 1900 + y; the day of month then differs only for shifts that land on or cross 0000-02-29, since 1900, unlike the year 0, has no 29 February.
- Decimal.NatToString: writes plain digits for every value; `toString` switches to exponent notation from 10^21, which no day of month reaches.
- Invalid dates, NaN offsets and the time-value range limit of `Date` are not modelled.

## Findings

| source | as written | input that shows it | evidently intended | confidence | as-written member | corrected member |
|---|---|---|---|---|---|---|
| index.ts:66 | the loop `i < Math.PI * 2` with `i += (2 * Math.PI) / 60` makes 61 passes: a second long tick over tick 0 and a numeral "12" at twelve o'clock | any container size: in binary64 the sixty steps sum to 6.283185307179582 < 6.283185307179586 = Math.PI * 2 | one pass per minute mark: 60 ticks, 12 of them long, numerals 1 to 11 | medium, not executed | FaceLayout.AsWrittenExtraPass | FaceLayout.TickClassification |
