/** The static face (index.ts, Clock.addTicks, lines 61-112): the tick marks
    and the hour numerals, in the order the loop appends them to the face group.
    `LayoutUpTo(midPoint, n)` is what the first `n` passes of the loop append;
    the lemmas describe the finished layout independently of that recursion.

    `Layout` is the face of sixty passes, one per minute mark, that the bound
    i < 2π with step 2π/60 gives in exact arithmetic. In binary64 the sixty
    steps add up to just below 2π, so the loop as written makes a 61st pass;
    `AsWrittenLayout` and `AsWrittenExtraPass` describe that face. */
module FaceLayout {
  import opened Geometry
  import opened Decimal

  /** Passes of the loop i = 0, 2π/60, ... while i < 2π, in exact arithmetic. */
  const TICK_COUNT: nat := 60

  datatype FaceElement =
    /** a `line` from (x1, y1) on the outer ring to (x2, y2) further in */
    | Tick(outer: Point, inner: Point)
    /** a `text` node of class hourNumber */
    | HourLabel(text: string, at: Point)

  /** The tick of pass `j`, at angle j: long (to midPoint/1.20) on every fifth pass,
      short (to midPoint/1.15) otherwise. */
  function TickAt(midPoint: real, j: nat): FaceElement {
    var h := j as real;
    var inner := if j % 5 == 0 then midPoint / 1.20 else midPoint / 1.15;
    Tick(Polar(midPoint, midPoint, midPoint / 1.1, midPoint / 1.1, h),
         Polar(midPoint, midPoint, inner, inner, h))
  }

  /** The numeral of pass `j`: text j/5 at angle j - 15, radius midPoint/1.4,
      nudged 5 down. */
  function LabelAt(midPoint: real, j: nat): FaceElement {
    HourLabel(NatToString(j / 5),
              Polar(midPoint, midPoint + 5.0, midPoint / 1.4, midPoint / 1.4, j as real - 15.0))
  }

  /** What pass `j` appends: the numeral first, for hour ticks other than j = 0, then the tick. */
  function Pass(midPoint: real, j: nat): seq<FaceElement> {
    (if j % 5 == 0 && j != 0 then [LabelAt(midPoint, j)] else []) + [TickAt(midPoint, j)]
  }

  function LayoutUpTo(midPoint: real, n: nat): seq<FaceElement>
    decreases n
  {
    if n == 0 then [] else LayoutUpTo(midPoint, n - 1) + Pass(midPoint, n - 1)
  }

  /** Everything addTicks appends for a face of half-size `midPoint`. */
  function Layout(midPoint: real): seq<FaceElement> {
    LayoutUpTo(midPoint, TICK_COUNT)
  }

  /** The tick marks of `s`, in order. */
  function Ticks(s: seq<FaceElement>): seq<FaceElement>
    decreases |s|
  {
    if s == [] then []
    else Ticks(s[..|s| - 1]) + (if s[|s| - 1].Tick? then [s[|s| - 1]] else [])
  }

  /** The numerals of `s`, in order. */
  function Labels(s: seq<FaceElement>): seq<FaceElement>
    decreases |s|
  {
    if s == [] then []
    else Labels(s[..|s| - 1]) + (if s[|s| - 1].HourLabel? then [s[|s| - 1]] else [])
  }

  /** Number of long (hour) tick marks in `s` on a face of half-size `midPoint`. */
  function CountHourTicks(s: seq<FaceElement>, midPoint: real): nat
    decreases |s|
  {
    if s == [] then 0
    else
      var e := s[|s| - 1];
      CountHourTicks(s[..|s| - 1], midPoint) + (if e.Tick? && e.inner.rx == midPoint / 1.20 then 1 else 0)
  }

  lemma {:induction false} TicksAppend(a: seq<FaceElement>, b: seq<FaceElement>)
    ensures Ticks(a + b) == Ticks(a) + Ticks(b)
    decreases |b|
  {
    if b == [] {
      assert a + b == a;
    } else {
      var init := b[..|b| - 1];
      assert (a + b)[..|a + b| - 1] == a + init;
      TicksAppend(a, init);
    }
  }

  lemma {:induction false} LabelsAppend(a: seq<FaceElement>, b: seq<FaceElement>)
    ensures Labels(a + b) == Labels(a) + Labels(b)
    decreases |b|
  {
    if b == [] {
      assert a + b == a;
    } else {
      var init := b[..|b| - 1];
      assert (a + b)[..|a + b| - 1] == a + init;
      LabelsAppend(a, init);
    }
  }

  lemma {:induction false} CountAppend(a: seq<FaceElement>, b: seq<FaceElement>, midPoint: real)
    ensures CountHourTicks(a + b, midPoint) == CountHourTicks(a, midPoint) + CountHourTicks(b, midPoint)
    decreases |b|
  {
    if b == [] {
      assert a + b == a;
    } else {
      var init := b[..|b| - 1];
      assert (a + b)[..|a + b| - 1] == a + init;
      CountAppend(a, init, midPoint);
    }
  }

  /** What one pass contributes to each filter. */
  lemma PassTicks(midPoint: real, j: nat)
    ensures Ticks(Pass(midPoint, j)) == [TickAt(midPoint, j)]
  {
    var p, tick := Pass(midPoint, j), TickAt(midPoint, j);
    if j % 5 == 0 && j != 0 {
      var numeral := LabelAt(midPoint, j);
      assert p == [numeral, tick] && p[..1] == [numeral] && [numeral][..0] == [];
      assert Ticks([numeral]) == [];
    } else {
      assert p == [tick] && p[..0] == [];
    }
  }

  lemma PassLabels(midPoint: real, j: nat)
    ensures Labels(Pass(midPoint, j)) == if j % 5 == 0 && j != 0 then [LabelAt(midPoint, j)] else []
  {
    var p, tick := Pass(midPoint, j), TickAt(midPoint, j);
    if j % 5 == 0 && j != 0 {
      var numeral := LabelAt(midPoint, j);
      assert p == [numeral, tick] && p[..1] == [numeral] && [numeral][..0] == [];
      assert Labels([numeral]) == [numeral];
    } else {
      assert p == [tick] && p[..0] == [];
    }
  }

  lemma PassCount(midPoint: real, j: nat)
    requires 0.0 < midPoint
    ensures CountHourTicks(Pass(midPoint, j), midPoint) == if j % 5 == 0 then 1 else 0
  {
    var p, tick := Pass(midPoint, j), TickAt(midPoint, j);
    if j % 5 == 0 && j != 0 {
      var numeral := LabelAt(midPoint, j);
      assert p == [numeral, tick] && p[..1] == [numeral] && [numeral][..0] == [];
      assert CountHourTicks([numeral], midPoint) == 0;
    } else {
      assert p == [tick] && p[..0] == [];
    }
  }

  lemma {:induction false} TicksUpTo(midPoint: real, n: nat)
    ensures |Ticks(LayoutUpTo(midPoint, n))| == n
    ensures forall k :: 0 <= k < n ==> Ticks(LayoutUpTo(midPoint, n))[k] == TickAt(midPoint, k)
    decreases n
  {
    if n > 0 {
      var prev := LayoutUpTo(midPoint, n - 1);
      TicksUpTo(midPoint, n - 1);
      assert LayoutUpTo(midPoint, n) == prev + Pass(midPoint, n - 1);
      TicksAppend(prev, Pass(midPoint, n - 1));
      PassTicks(midPoint, n - 1);
      ExtendTicks(Ticks(prev), Ticks(LayoutUpTo(midPoint, n)), midPoint, n);
    }
  }

  lemma ExtendTicks(before: seq<FaceElement>, after: seq<FaceElement>, midPoint: real, n: nat)
    requires 0 < n && |before| == n - 1
    requires forall k :: 0 <= k < n - 1 ==> before[k] == TickAt(midPoint, k)
    requires after == before + [TickAt(midPoint, n - 1)]
    ensures |after| == n && forall k :: 0 <= k < n ==> after[k] == TickAt(midPoint, k)
  {
  }

  /** The sixty tick marks, in loop order: tick k sits at angle k (k·2π/60), starts
      on the ring of radius midPoint/1.1 and reaches in to midPoint/1.20 exactly
      when k is a multiple of 5, to midPoint/1.15 otherwise. */
  lemma TickClassification(midPoint: real)
    ensures |Ticks(Layout(midPoint))| == TICK_COUNT
    ensures forall k :: 0 <= k < TICK_COUNT ==>
              var t := Ticks(Layout(midPoint))[k];
              t.Tick? &&
              OnCircle(t.outer, midPoint, midPoint, midPoint / 1.1) && t.outer.angle == k as real &&
              OnCircle(t.inner, midPoint, midPoint, if k % 5 == 0 then midPoint / 1.20 else midPoint / 1.15) &&
              t.inner.angle == k as real
  {
    TicksUpTo(midPoint, TICK_COUNT);
    forall k | 0 <= k < TICK_COUNT
      ensures var t := Ticks(Layout(midPoint))[k];
              t.Tick? &&
              OnCircle(t.outer, midPoint, midPoint, midPoint / 1.1) && t.outer.angle == k as real &&
              OnCircle(t.inner, midPoint, midPoint, if k % 5 == 0 then midPoint / 1.20 else midPoint / 1.15) &&
              t.inner.angle == k as real
    {
      TickAtShape(midPoint, k, Ticks(Layout(midPoint))[k]);
    }
  }

  lemma TickAtShape(midPoint: real, k: nat, t: FaceElement)
    requires t == TickAt(midPoint, k)
    ensures t.Tick? &&
            OnCircle(t.outer, midPoint, midPoint, midPoint / 1.1) && t.outer.angle == k as real &&
            OnCircle(t.inner, midPoint, midPoint, if k % 5 == 0 then midPoint / 1.20 else midPoint / 1.15) &&
            t.inner.angle == k as real
  {
  }

  lemma {:induction false} HourTicksUpTo(midPoint: real, n: nat)
    requires 0.0 < midPoint
    ensures CountHourTicks(LayoutUpTo(midPoint, n), midPoint) == (n + 4) / 5
    decreases n
  {
    if n > 0 {
      var prev := LayoutUpTo(midPoint, n - 1);
      HourTicksUpTo(midPoint, n - 1);
      assert LayoutUpTo(midPoint, n) == prev + Pass(midPoint, n - 1);
      CountAppend(prev, Pass(midPoint, n - 1), midPoint);
      PassCount(midPoint, n - 1);
      assert CountHourTicks(LayoutUpTo(midPoint, n), midPoint)
          == CountHourTicks(prev, midPoint) + (if (n - 1) % 5 == 0 then 1 else 0);
      assert (n + 4) / 5 == (n + 3) / 5 + (if (n - 1) % 5 == 0 then 1 else 0);
    }
  }

  /** On a face of positive size exactly twelve of the sixty ticks are long hour ticks. */
  lemma TwelveHourTicks(midPoint: real)
    requires 0.0 < midPoint
    ensures CountHourTicks(Layout(midPoint), midPoint) == 12
    ensures CountHourTicks(Ticks(Layout(midPoint)), midPoint) == 12
  {
    HourTicksUpTo(midPoint, TICK_COUNT);
    CountTicksOnly(Layout(midPoint), midPoint);
  }

  /** Numerals never count as hour ticks. */
  lemma {:induction false} CountTicksOnly(s: seq<FaceElement>, midPoint: real)
    ensures CountHourTicks(Ticks(s), midPoint) == CountHourTicks(s, midPoint)
    decreases |s|
  {
    if s != [] {
      var init := s[..|s| - 1];
      var last := s[|s| - 1];
      CountTicksOnly(init, midPoint);
      var tail := if last.Tick? then [last] else [];
      TicksAppend(init, [last]);
      CountAppend(Ticks(init), tail, midPoint);
      if last.Tick? {
        assert [last][..0] == [];
      }
    }
  }

  /** The hour numeral for hour `hour` (1 to 11). */
  function NumeralFor(midPoint: real, hour: nat): FaceElement {
    HourLabel(NatToString(hour),
              Polar(midPoint, midPoint + 5.0, midPoint / 1.4, midPoint / 1.4, 5.0 * hour as real - 15.0))
  }

  lemma {:induction false} LabelsUpTo(midPoint: real, n: nat)
    ensures |Labels(LayoutUpTo(midPoint, n))| == if n == 0 then 0 else (n - 1) / 5
    ensures forall k :: 0 <= k < |Labels(LayoutUpTo(midPoint, n))| ==>
              Labels(LayoutUpTo(midPoint, n))[k] == NumeralFor(midPoint, k + 1)
    decreases n
  {
    if n > 0 {
      var j := n - 1;
      LabelsUpTo(midPoint, j);
      LabelsAppend(LayoutUpTo(midPoint, j), Pass(midPoint, j));
      PassLabels(midPoint, j);
      if j % 5 == 0 && j != 0 {
        assert j == 5 * (j / 5) && j / 5 == (j - 1) / 5 + 1;
        assert LabelAt(midPoint, j) == NumeralFor(midPoint, j / 5);
      } else {
        assert j == 0 || j / 5 == (j - 1) / 5;
      }
    }
  }

  /** The numeral for `hour` reads back as `hour`, is never "12" for the hours
      the face labels, and sits on the numeral circle at the hour's angle. */
  lemma NumeralProperties(midPoint: real, hour: nat)
    requires 1 <= hour <= 11
    ensures var l := NumeralFor(midPoint, hour);
      AllDigits(l.text) && DigitsValue(l.text) == hour && l.text != "12" &&
      OnCircle(l.at, midPoint, midPoint + 5.0, midPoint / 1.4) &&
      l.at.angle == 5.0 * hour as real - 15.0
  {
    DigitsValueOfNatToString(hour);
    assert DigitsValue("12") == 12 by {
      assert "12"[..1] == "1" && "1"[..0] == [];
    }
  }

  /** The numerals of the face, in order, are those of the hours 1 to 11. */
  lemma LabelsOfLayout(midPoint: real)
    ensures |Labels(Layout(midPoint))| == 11
    ensures forall k :: 0 <= k < 11 ==> Labels(Layout(midPoint))[k] == NumeralFor(midPoint, k + 1)
  {
    LabelsUpTo(midPoint, TICK_COUNT);
  }

  /** In the sixty passes, the face carries the numerals 1 to 11 in order, each on the circle of
      radius midPoint/1.4 around (midPoint, midPoint + 5) at the angle of its
      hour (5·hour - 15, that is hour·2π/12 - π/2). */
  lemma HourLabels(midPoint: real)
    ensures |Labels(Layout(midPoint))| == 11
    ensures forall k :: 0 <= k < 11 ==>
              var l := Labels(Layout(midPoint))[k];
              l.HourLabel? && AllDigits(l.text) && DigitsValue(l.text) == k + 1 &&
              OnCircle(l.at, midPoint, midPoint + 5.0, midPoint / 1.4) &&
              l.at.angle == 5.0 * (k + 1) as real - 15.0
  {
    LabelsOfLayout(midPoint);
    forall k | 0 <= k < 11
      ensures var l := Labels(Layout(midPoint))[k];
        l.HourLabel? && AllDigits(l.text) && DigitsValue(l.text) == k + 1 &&
        OnCircle(l.at, midPoint, midPoint + 5.0, midPoint / 1.4) &&
        l.at.angle == 5.0 * (k + 1) as real - 15.0
    {
      NumeralProperties(midPoint, k + 1);
    }
  }

  /** In the sixty passes, pass 0 emits no numeral (the `if (j)` guard), so
      twelve o'clock gets none: no text on the face reads "12". */
  lemma NoTwelve(midPoint: real)
    ensures forall l :: l in Labels(Layout(midPoint)) ==> l.HourLabel? && l.text != "12"
  {
    LabelsOfLayout(midPoint);
    var labels := Labels(Layout(midPoint));
    forall l | l in labels
      ensures l.HourLabel? && l.text != "12"
    {
      var k :| 0 <= k < 11 && labels[k] == l;
      NumeralProperties(midPoint, k + 1);
    }
  }

  /** What the loop appends as written: the sixty steps of 2π/60 sum in
      binary64 to 6.283185307179582, below 2π = 6.283185307179586, so the bound
      lets pass j = 60 run as well. */
  function AsWrittenLayout(midPoint: real): seq<FaceElement> {
    LayoutUpTo(midPoint, TICK_COUNT + 1)
  }

  /** The 61st pass appends the numeral "12" at angle 45 (twelve o'clock) and a
      long tick at angle 60, a full turn from tick 0 and so drawn over it: the
      face as written has 61 ticks, 13 of them long, and the numerals 1 to 12. */
  lemma AsWrittenExtraPass(midPoint: real)
    requires 0.0 < midPoint
    ensures AsWrittenLayout(midPoint) == Layout(midPoint) + [LabelAt(midPoint, 60), TickAt(midPoint, 60)]
    ensures |Ticks(AsWrittenLayout(midPoint))| == 61
    ensures Ticks(AsWrittenLayout(midPoint))[60]
              == Tick(Polar(midPoint, midPoint, midPoint / 1.1, midPoint / 1.1, 60.0),
                      Polar(midPoint, midPoint, midPoint / 1.20, midPoint / 1.20, 60.0))
    ensures CountHourTicks(AsWrittenLayout(midPoint), midPoint) == 13
    ensures |Labels(AsWrittenLayout(midPoint))| == 12
    ensures Labels(AsWrittenLayout(midPoint))[11]
              == HourLabel("12", Polar(midPoint, midPoint + 5.0, midPoint / 1.4, midPoint / 1.4, 45.0))
  {
    ExtraPassAppends(midPoint, TICK_COUNT);
    ExtraPassCounts(midPoint, TICK_COUNT);
    assert NatToString(12) == "12" by {
      assert NatToString(1) == "1";
    }
  }

  /** Pass `n` of a loop that goes on after the sixty passes appends the
      numeral and the tick of angle `n`. (The count is a parameter rather than
      the literal 60 so that the recursive definitions stay folded.) */
  lemma ExtraPassAppends(midPoint: real, n: nat)
    requires n == TICK_COUNT
    ensures LayoutUpTo(midPoint, n + 1) == LayoutUpTo(midPoint, n) + [LabelAt(midPoint, n), TickAt(midPoint, n)]
  {
    assert n % 5 == 0 && n != 0;
    assert Pass(midPoint, n) == [LabelAt(midPoint, n), TickAt(midPoint, n)];
  }

  /** After sixty-one passes: 61 ticks, 13 of them long, and 12 numerals. */
  lemma ExtraPassCounts(midPoint: real, n: nat)
    requires 0.0 < midPoint && n == TICK_COUNT
    ensures |Ticks(LayoutUpTo(midPoint, n + 1))| == n + 1
    ensures Ticks(LayoutUpTo(midPoint, n + 1))[n] == TickAt(midPoint, n)
    ensures CountHourTicks(LayoutUpTo(midPoint, n + 1), midPoint) == 13
    ensures |Labels(LayoutUpTo(midPoint, n + 1))| == 12
    ensures Labels(LayoutUpTo(midPoint, n + 1))[11] == NumeralFor(midPoint, 12)
  {
    TicksUpTo(midPoint, n + 1);
    HourTicksUpTo(midPoint, n + 1);
    LabelsUpTo(midPoint, n + 1);
  }
}
