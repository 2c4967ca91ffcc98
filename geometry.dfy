/** Points on the clock face, kept symbolic so that no trigonometry is evaluated.

    `Polar(cx, cy, rx, ry, angle)` stands for the point
    (cx + rx·cos θ, cy + ry·sin θ) with θ = angle·2π/60, the angle counted in
    minute steps as in `AngleMath`. Two such points with equal components are
    the same point; every coordinate the source writes has this shape. Where a
    lemma needs the coordinates themselves it takes the cosine `c` and sine `s`
    of the angle as numbers with c² + s² = 1. */
module Geometry {

  datatype Point = Polar(cx: real, cy: real, rx: real, ry: real, angle: real)

  /** The x coordinate of `p` when the cosine of its angle is `c`. */
  function XOf(p: Point, c: real): real {
    p.cx + p.rx * c
  }

  /** The y coordinate of `p` when the sine of its angle is `s`. */
  function YOf(p: Point, s: real): real {
    p.cy + p.ry * s
  }

  /** The squared distance from (cx, cy) to `p`, the cosine and sine of its angle being `c` and `s`. */
  function DistanceSquared(p: Point, c: real, s: real, cx: real, cy: real): real {
    (XOf(p, c) - cx) * (XOf(p, c) - cx) + (YOf(p, s) - cy) * (YOf(p, s) - cy)
  }

  /** `p` is centred on (cx, cy) with both radii `r`. */
  predicate OnCircle(p: Point, cx: real, cy: real, r: real) {
    p.cx == cx && p.cy == cy && p.rx == r && p.ry == r
  }

  /** A point centred on (cx, cy) with both radii `r` lies at distance `r` from
      (cx, cy), whatever its angle: it is on the circle of radius `r`. */
  lemma OnCircleDistance(p: Point, cx: real, cy: real, r: real, c: real, s: real)
    requires OnCircle(p, cx, cy, r)
    requires c * c + s * s == 1.0
    ensures DistanceSquared(p, c, s, cx, cy) == r * r
  {
    calc {
      DistanceSquared(p, c, s, cx, cy);
      (r * c) * (r * c) + (r * s) * (r * s);
      { assert (r * c) * (r * c) + (r * s) * (r * s) == (r * r) * (c * c + s * s); }
      r * r;
    }
  }

  /** Endpoint of the hour hand (updateHour): length midPoint/2. */
  function HourTip(midPoint: real, angle: real): Point {
    Polar(midPoint, midPoint, midPoint / 2.0, midPoint / 2.0, angle)
  }

  /** Endpoint of the minute hand (updateMinute): midPoint/1.5 across but
      midPoint/1.6 down, as the source writes it. */
  function MinuteTip(midPoint: real, angle: real): Point {
    Polar(midPoint, midPoint, midPoint / 1.5, midPoint / 1.6, angle)
  }

  /** Endpoint of the second hand (updateSecond): length midPoint/1.28. */
  function SecondTip(midPoint: real, angle: real): Point {
    Polar(midPoint, midPoint, midPoint / 1.28, midPoint / 1.28, angle)
  }

  /** The hour and second hands keep their length at every angle: their tips
      are midPoint/2 and midPoint/1.28 away from the centre (midPoint, midPoint),
      both inside the face. */
  lemma HandsOnCircles(midPoint: real, angle: real, c: real, s: real)
    requires c * c + s * s == 1.0
    ensures DistanceSquared(HourTip(midPoint, angle), c, s, midPoint, midPoint)
              == (midPoint / 2.0) * (midPoint / 2.0)
    ensures DistanceSquared(SecondTip(midPoint, angle), c, s, midPoint, midPoint)
              == (midPoint / 1.28) * (midPoint / 1.28)
    ensures 0.0 < midPoint ==> midPoint / 2.0 < midPoint / 1.28 < midPoint
  {
    OnCircleDistance(HourTip(midPoint, angle), midPoint, midPoint, midPoint / 2.0, c, s);
    OnCircleDistance(SecondTip(midPoint, angle), midPoint, midPoint, midPoint / 1.28, c, s);
  }

  /** The minute hand does not keep its length: on a face of positive size its
      tip is midPoint/1.5 from the centre at three o'clock (cosine 1, sine 0)
      but only midPoint/1.6 at six o'clock (cosine 0, sine 1), so its path is
      an ellipse, not a circle. */
  lemma MinuteTipNotCircular(midPoint: real, angle: real)
    requires 0.0 < midPoint
    ensures DistanceSquared(MinuteTip(midPoint, angle), 1.0, 0.0, midPoint, midPoint)
              == (midPoint / 1.5) * (midPoint / 1.5)
    ensures DistanceSquared(MinuteTip(midPoint, angle), 0.0, 1.0, midPoint, midPoint)
              == (midPoint / 1.6) * (midPoint / 1.6)
    ensures (midPoint / 1.6) * (midPoint / 1.6) < (midPoint / 1.5) * (midPoint / 1.5)
  {
    assert midPoint / 1.6 < midPoint / 1.5;
  }
}
