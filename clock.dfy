/** The `Clock` class of index.ts: it draws a face once and then moves three
    hands and a date readout to the time of its zone on every update.

    The SVG nodes the clock keeps are modelled as small objects holding only
    what the source changes or reads back: the face group's children, a line's
    fixed start and its moving endpoint, a text node's content. The current
    instant and the container's size are parameters. */
module SvgClock {
  import opened Geometry
  import opened FaceLayout
  import opened TimeShift
  import opened AngleMath
  import opened DateReadout
  import Decimal

  datatype Option<T> = None | Some(value: T)

  /** A `g` element: the face elements appended to it, in order. */
  class Group {
    var children: seq<FaceElement>

    constructor ()
      ensures children == []
    {
      children := [];
    }
  }

  /** A `line` element of the update group: it starts at the centre (x1, y1)
      and its endpoint (x2, y2) is unset until the first update. */
  class LineNode {
    const x1: real
    const y1: real
    var tip: Option<Point>

    constructor (midPoint: real)
      ensures x1 == midPoint && y1 == midPoint && tip == None
    {
      x1, y1 := midPoint, midPoint;
      tip := None;
    }
  }

  /** A `text` element whose content the clock replaces. */
  class TextNode {
    var text: string

    constructor ()
      ensures text == ""
    {
      text := "";
    }
  }

  /** Half the side of the square drawing: the smaller of the container's
      height and width, halved (index.ts:20-22). */
  function MidPoint(width: real, height: real): (m: real)
    ensures 2.0 * m <= width && 2.0 * m <= height
    ensures 2.0 * m == width || 2.0 * m == height
  {
    (if height < width then height else width) / 2.0
  }

  class Clock {
    const timeOffset: real
    /** The group the face is drawn into. In index.ts it is a local of
        renderFace (line 45), not a field; it is kept here so that the drawn
        face can be stated. */
    const faceGroup: Group
    const dateHand: TextNode
    const secondHand: LineNode
    const minuteHand: LineNode
    const hourHand: LineNode

    /** The three hands are three different nodes. */
    ghost predicate Valid()
      reads this
    {
      hourHand != minuteHand && minuteHand != secondHand && hourHand != secondHand
    }

    /** The nodes show the time of this clock's zone at the UTC instant
        `nowUtcMs`: the padded day of month and each hand's endpoint at the
        angle computed from the shifted fields. */
    ghost predicate Shows(midPoint: real, nowUtcMs: int)
      reads this, dateHand, hourHand, minuteHand, secondHand
    {
      var f := LocalFields(nowUtcMs, timeOffset);
      var a := Angles(f);
      dateHand.text == DateText(f.day)
      && hourHand.tip == Some(HourTip(midPoint, a.hour))
      && minuteHand.tip == Some(MinuteTip(midPoint, a.minute))
      && secondHand.tip == Some(SecondTip(midPoint, a.second))
    }

    /** Builds the clock in a container of the given size, draws the face and
        shows the time at `nowUtcMs`. */
    constructor (containerWidth: real, containerHeight: real, timeOffset: real, nowUtcMs: int)
      ensures this.timeOffset == timeOffset
      ensures faceGroup.children == Layout(MidPoint(containerWidth, containerHeight))
      ensures Valid() && Shows(MidPoint(containerWidth, containerHeight), nowUtcMs)
      ensures hourHand.x1 == hourHand.y1 == MidPoint(containerWidth, containerHeight)
      ensures minuteHand.x1 == minuteHand.y1 == MidPoint(containerWidth, containerHeight)
      ensures secondHand.x1 == secondHand.y1 == MidPoint(containerWidth, containerHeight)
    {
      var midPoint := MidPoint(containerWidth, containerHeight);
      this.timeOffset := timeOffset;
      faceGroup := new Group();
      hourHand := new LineNode(midPoint);
      minuteHand := new LineNode(midPoint);
      secondHand := new LineNode(midPoint);
      dateHand := new TextNode();
      new;
      AddTicks(faceGroup, midPoint);
      Update(midPoint, nowUtcMs);
    }

    /** Appends the ticks and the numerals to `group`. The loop variable `i`
        is the angle in minute steps; `j` counts the passes. In exact arithmetic
        the bound i < 2π stops it after sixty passes, one per minute mark; the
        floating-point loop makes a 61st (`FaceLayout.AsWrittenLayout`). */
    method AddTicks(group: Group, midPoint: real)
      modifies group
      ensures group.children == old(group.children) + Layout(midPoint)
    {
      var minuteAngle := FULL_TURN / 60.0;
      assert minuteAngle == 1.0;
      var j: nat := 0;
      var i := 0.0;
      while i < FULL_TURN
        invariant j <= TICK_COUNT && i == j as real
        invariant group.children == old(group.children) + LayoutUpTo(midPoint, j)
        decreases TICK_COUNT - j
      {
        var h := i;
        var outer := Polar(midPoint, midPoint, midPoint / 1.1, midPoint / 1.1, h);
        var short := Polar(midPoint, midPoint, midPoint / 1.15, midPoint / 1.15, h);
        var long := Polar(midPoint, midPoint, midPoint / 1.20, midPoint / 1.20, h);
        var tick;
        ghost var before := group.children;
        ghost var numerals: seq<FaceElement> := [];
        if j % 5 == 0 {
          tick := Tick(outer, long);
          var tp := (j as real * minuteAngle) - 15.0 * minuteAngle;
          var at := Polar(midPoint, midPoint + 5.0, midPoint / 1.4, midPoint / 1.4, tp);
          if j != 0 {
            var text := HourLabel(Decimal.NatToString(j / 5), at);
            group.children := group.children + [text];
            numerals := [text];
            assert text == LabelAt(midPoint, j);
          }
        } else {
          tick := Tick(outer, short);
        }
        group.children := group.children + [tick];
        assert tick == TickAt(midPoint, j);
        assert numerals + [tick] == Pass(midPoint, j);
        assert group.children == before + Pass(midPoint, j);
        assert LayoutUpTo(midPoint, j + 1) == LayoutUpTo(midPoint, j) + Pass(midPoint, j);
        j := j + 1;
        i := i + minuteAngle;
      }
      assert j == TICK_COUNT;
    }

    /** Writes the day of month, padded to two digits below 10. */
    method UpdateDate(day: nat)
      modifies dateHand
      ensures dateHand.text == DateText(day)
    {
      dateHand.text := if day < 10 then "0" + Decimal.NatToString(day) else Decimal.NatToString(day);
    }

    method UpdateHour(midPoint: real, hour: real)
      modifies hourHand
      ensures hourHand.tip == Some(HourTip(midPoint, hour))
    {
      hourHand.tip := Some(Polar(midPoint, midPoint, midPoint / 2.0, midPoint / 2.0, hour));
    }

    method UpdateMinute(midPoint: real, min: real)
      modifies minuteHand
      ensures minuteHand.tip == Some(MinuteTip(midPoint, min))
    {
      minuteHand.tip := Some(Polar(midPoint, midPoint, midPoint / 1.5, midPoint / 1.6, min));
    }

    method UpdateSecond(midPoint: real, sec: real)
      modifies secondHand
      ensures secondHand.tip == Some(SecondTip(midPoint, sec))
    {
      secondHand.tip := Some(Polar(midPoint, midPoint, midPoint / 1.28, midPoint / 1.28, sec));
    }

    /** Shifts `nowUtcMs` by the offset, reads the local fields, computes the
        hand angles and moves the nodes. */
    method Update(midPoint: real, nowUtcMs: int)
      requires Valid()
      modifies dateHand, hourHand, minuteHand, secondHand
      ensures Shows(midPoint, nowUtcMs)
    {
      var msField := nowUtcMs % MS_PER_SECOND;
      var shifted := (nowUtcMs - msField) + Trunc(msField as real + timeOffset * 60.0 * 60.0 * 1000.0);
      assert shifted == ShiftedInstant(nowUtcMs, timeOffset);
      var date := Fields(shifted);
      var day, rawMs, rawSec, rawMin, rawHour := date.day, date.ms, date.second, date.minute, date.hour;

      var hourAngle := FULL_TURN / 12.0;
      var minuteAngle := hourAngle / 5.0;
      var secondAngle := minuteAngle;
      var msAngle := secondAngle / 1000.0;

      var correction := FULL_TURN / 4.0;
      assert hourAngle == HOUR_STEP && minuteAngle == MINUTE_STEP && secondAngle == SECOND_STEP && correction == CORRECTION;
      var ms := rawMs as real * msAngle;  // computed but not used, as in the source
      var sec := rawSec as real * secondAngle - correction;
      var min := rawMin as real * minuteAngle + (rawSec as real * secondAngle) / 60.0 - correction;
      var hour := rawHour as real * hourAngle + (rawMin as real * minuteAngle) / 12.0 - correction;

      assert sec == Angles(date).second;
      assert min == Angles(date).minute;
      assert hour == Angles(date).hour;
      UpdateDate(day);
      UpdateHour(midPoint, hour);
      UpdateMinute(midPoint, min);
      UpdateSecond(midPoint, sec);
    }
  }

  /** On the hour, from one to eleven o'clock, the numeral of that hour has
      the hour hand's angle, and it reads as the hour. (The numerals are
      placed about (midPoint, midPoint + 5), the hands about the centre.) */
  lemma HourHandOnNumeral(midPoint: real, f: TimeFields)
    requires InRange(f) && 1 <= f.hour <= 11 && f.minute == 0
    ensures |Labels(Layout(midPoint))| == 11
    ensures var l := Labels(Layout(midPoint))[f.hour - 1];
      l.HourLabel? && l.at.angle == Angles(f).hour && Decimal.AllDigits(l.text)
      && Decimal.DigitsValue(l.text) == f.hour
  {
    assert Angles(f).hour == 5.0 * f.hour as real - 15.0;
    HourLabels(midPoint);
  }

  /** On a whole minute one tick mark has the minute hand's angle, or that
      angle plus a full turn before a quarter past (the ticks start at three
      o'clock, the hands at twelve); the tick is a long one exactly on
      multiples of five minutes. */
  lemma MinuteHandOnTick(midPoint: real, f: TimeFields)
    requires 0.0 < midPoint && InRange(f) && f.second == 0
    ensures |Ticks(Layout(midPoint))| == TICK_COUNT
    ensures var t := Ticks(Layout(midPoint))[(f.minute + 45) % 60];
      t.Tick? && t.outer.angle == Angles(f).minute + (if f.minute < 15 then FULL_TURN else 0.0)
      && (t.inner.rx == midPoint / 1.20 <==> f.minute % 5 == 0)
  {
    var k := (f.minute + 45) % 60;
    assert Angles(f).minute + (if f.minute < 15 then FULL_TURN else 0.0) == k as real;
    assert k % 5 == 0 <==> f.minute % 5 == 0;
    TickClassification(midPoint);
  }
}
