/** The time axis of the chart (chart-renderer.js, chooseInterval and
    renderTimeColumn): the spacing of the major ticks, the ticks themselves,
    and the two border lines that frame the axis. */
module TimeAxis {

  import opened Values
  import opened RangeFilter
  import opened ScaleEngine

  /** chooseInterval: the tick step in Ma for a window of `span` Ma. */
  function ChooseInterval(span: real): (step: real)
    ensures step == 1.0 || step == 2.0 || step == 5.0 || step == 10.0 || step == 20.0
  {
    if span <= 10.0 then 1.0
    else if span <= 25.0 then 2.0
    else if span <= 80.0 then 5.0
    else if span <= 150.0 then 10.0
    else 20.0
  }

  /** A wider window never gets a finer step. */
  lemma ChooseIntervalMonotone(a: real, b: real)
    requires a <= b
    ensures ChooseInterval(a) <= ChooseInterval(b)
  {
  }

  /** The step keeps the axis readable: a window of at least 1 Ma has a tick
      step no longer than itself, and a window up to 150 Ma has at most 16
      steps. */
  lemma ChooseIntervalDensity(span: real)
    ensures span >= 1.0 ==> ChooseInterval(span) <= span
    ensures 0.0 <= span <= 150.0 ==> span <= 16.0 * ChooseInterval(span)
  {
  }

  /** The offset at which a tick's label is drawn: 6 px lower for the 0 Ma
      tick, so that it clears the top padding. */
  function LabelTop(ma: real, y: real): real {
    if ma == 0.0 then y + 6.0 else y
  }

  /** One major tick: its time, the offset of its line and that of its label. */
  datatype Tick = Tick(ma: real, lineTop: real, labelTop: real)

  /** The tick loop of renderTimeColumn: from `min`, one tick per step while
      the time stays below `max - 1e-9`. The ticks are exactly the multiples
      of the step above `min` that lie below that bound, and each sits at its
      timeToY offset. */
  method MajorTicks(s: Scale, min: real, max: real) returns (ticks: seq<Tick>)
    requires WellFormed(s)
    ensures var step := ChooseInterval(max - min);
      && (forall i :: 0 <= i < |ticks| ==>
            && ticks[i].ma == min + i as real * step
            && ticks[i].ma < max - Nudge
            && ticks[i].lineTop == TimeToY(s, ticks[i].ma)
            && ticks[i].labelTop == LabelTop(ticks[i].ma, ticks[i].lineTop))
      && min + |ticks| as real * step >= max - Nudge
  {
    var step := ChooseInterval(max - min);
    var ma := min;
    ticks := [];
    while ma < max - Nudge
      invariant ma == min + |ticks| as real * step
      invariant forall i :: 0 <= i < |ticks| ==>
        && ticks[i].ma == min + i as real * step
        && ticks[i].ma < max - Nudge
        && ticks[i].lineTop == TimeToY(s, ticks[i].ma)
        && ticks[i].labelTop == LabelTop(ticks[i].ma, ticks[i].lineTop)
      decreases (max - ma).Floor
    {
      var y := TimeToY(s, ma);
      ticks := ticks + [Tick(ma, y, if ma == 0.0 then y + 6.0 else y)];
      ma := ma + step;
    }
  }

  /** The two borders of the axis: the offsets of `min` and of `max` clamped
      into the window. */
  function AxisBorders(s: Scale, min: real, max: real): (real, real)
    requires WellFormed(s)
  {
    (TimeToY(s, min), TimeToY(s, ClampTime(max, min, max)))
  }

  /** In proportional mode, on the scale's own window, every tick line lies
      between the two borders: at or below the top one, strictly above the
      bottom one. */
  lemma TicksWithinBorders(s: Scale, ma: real)
    requires s.mapping.Linear? && s.mapping.effectiveHeight > 0.0 && s.max - s.min >= Nudge
    requires s.min <= ma < s.max - Nudge
    ensures AxisBorders(s, s.min, s.max).0 <= TimeToY(s, ma) < AxisBorders(s, s.min, s.max).1
  {
    var bottom := ClampTime(s.max, s.min, s.max);
    assert bottom == s.max - Nudge;
    LinearIncreasing(s, ma, bottom);
    if s.min < ma {
      LinearIncreasing(s, s.min, ma);
    }
  }
}
