/** Squeezing lanes into a narrow column (crates/refyard-graph/src/geometry.rs). */
module CompressedMetrics {
  import opened GraphGeometry

  const MIN_LANE_WIDTH := 6.0
  const MIN_RADIUS := 2.5
  const MIN_LINE_WIDTH := 1.25
  const MIN_LANE_PADDING := 6.0

  function AtLeast(x: real, floor: real): real { if x < floor then floor else x }
  function AtMost(x: real, ceiling: real): real { if x > ceiling then ceiling else x }

  predicate Drawable(m: Metrics) {
    m.rowHeight > 0.0 && m.laneWidth > 0.0 && m.lanePadding >= 0.0 && m.radius >= 0.0 && m.lineWidth >= 0.0
  }

  function Span(last: nat, base: Metrics): real {
    2.0 * base.lanePadding + 2.0 * base.radius + last as real * base.laneWidth
  }

  function Scale(last: nat, available: real, base: Metrics): real
    requires Drawable(base) && last > 0
  {
    assert last as real * base.laneWidth > 0.0;
    AtMost(AtLeast(available / Span(last, base), MIN_LANE_WIDTH / base.laneWidth), 1.0)
  }

  function Shrunk(x: real, scale: real, floor: real): real { AtLeast(x * scale, floor) }

  function Scaled(scale: real, base: Metrics): Metrics {
    Metrics(base.rowHeight, Shrunk(base.laneWidth, scale, MIN_LANE_WIDTH),
            Shrunk(base.lanePadding, scale, MIN_LANE_PADDING),
            Shrunk(base.radius, scale, MIN_RADIUS), Shrunk(base.lineWidth, scale, MIN_LINE_WIDTH))
  }

  /** `compressed_metrics`. */
  function Compressed(laneCount: nat, available: real, base: Metrics): Metrics
    requires Drawable(base)
  {
    if laneCount <= 1 || available >= GutterWidth(laneCount, base) then base
    else
      TakeOverflow(laneCount, available, Scaled(Scale(laneCount - 1, available, base), base))
  }

  /** What overflows the column comes out of the lane spacing, down to its floor. */
  function TakeOverflow(laneCount: nat, available: real, first: Metrics): Metrics
    requires laneCount > 1
  {
    var overflow := GutterWidth(laneCount, first) - available;
    if overflow > 0.0 && first.laneWidth > MIN_LANE_WIDTH then
      first.(laneWidth := AtLeast(first.laneWidth - overflow / (laneCount - 1) as real, MIN_LANE_WIDTH))
    else first
  }

  lemma OverflowOnlyNarrows(laneCount: nat, available: real, first: Metrics)
    requires laneCount > 1 && first.laneWidth >= MIN_LANE_WIDTH
    ensures var m := TakeOverflow(laneCount, available, first);
            m == first.(laneWidth := m.laneWidth) && MIN_LANE_WIDTH <= m.laneWidth <= first.laneWidth
  {
    var overflow := GutterWidth(laneCount, first) - available;
    assert overflow > 0.0 ==> overflow / (laneCount - 1) as real > 0.0;
  }

  predicate Squeezed(laneCount: nat, available: real, base: Metrics) {
    laneCount > 1 && available < GutterWidth(laneCount, base)
  }

  lemma GutterIsSpan(laneCount: nat, m: Metrics)
    requires laneCount > 0
    ensures GutterWidth(laneCount, m) == Span(laneCount - 1, m)
  {}

  lemma RemovingOverflowFits(laneCount: nat, m: Metrics, available: real)
    requires laneCount > 1
    ensures var overflow := GutterWidth(laneCount, m) - available;
            GutterWidth(laneCount, m.(laneWidth := m.laneWidth - overflow / (laneCount - 1) as real)) == available
  {
    var last, overflow := (laneCount - 1) as real, GutterWidth(laneCount, m) - available;
    assert last * (m.laneWidth - overflow / last) == last * m.laneWidth - overflow;
  }

  /** The promise: every lane fits in the column, or the lane spacing is at its floor. A
      single lane is never squeezed, so for it the promise is exactly that the column is
      wide enough (or that the base spacing happens to be the floor). */
  lemma FitsOrAtFloor(laneCount: nat, available: real, base: Metrics)
    requires Drawable(base)
    ensures var m := Compressed(laneCount, available, base);
            (GutterWidth(laneCount, m) <= available || m.laneWidth == MIN_LANE_WIDTH)
            <==> (laneCount > 1 || available >= GutterWidth(laneCount, base) || base.laneWidth == MIN_LANE_WIDTH)
  {
    if Squeezed(laneCount, available, base) {
      RemovingOverflowFits(laneCount, Scaled(Scale(laneCount - 1, available, base), base), available);
    }
  }

  lemma ScaleRange(last: nat, available: real, base: Metrics)
    requires Drawable(base) && last > 0
    ensures 0.0 < Scale(last, available, base) <= 1.0
  {
    assert MIN_LANE_WIDTH / base.laneWidth > 0.0;
  }

  lemma ScaledDown(x: real, scale: real, floor: real)
    requires x >= 0.0 && 0.0 < scale <= 1.0
    ensures Shrunk(x, scale, floor) <= x <==> x >= floor
    ensures x < floor ==> Shrunk(x, scale, floor) == floor
    ensures floor <= Shrunk(x, scale, floor)
  {
    assert x * scale <= x;
  }

  /** Squeezing leaves the row height alone, never goes below a floor, and enlarges a
      component exactly when its base was below that floor. */
  lemma SqueezeOnlyShrinks(laneCount: nat, available: real, base: Metrics)
    requires Drawable(base) && Squeezed(laneCount, available, base)
    ensures var m := Compressed(laneCount, available, base);
            && m.rowHeight == base.rowHeight
            && m.laneWidth >= MIN_LANE_WIDTH && m.lanePadding >= MIN_LANE_PADDING
            && m.radius >= MIN_RADIUS && m.lineWidth >= MIN_LINE_WIDTH
            && (m.laneWidth <= base.laneWidth <==> base.laneWidth >= MIN_LANE_WIDTH)
            && (m.lanePadding <= base.lanePadding <==> base.lanePadding >= MIN_LANE_PADDING)
            && (m.radius <= base.radius <==> base.radius >= MIN_RADIUS)
            && (m.lineWidth <= base.lineWidth <==> base.lineWidth >= MIN_LINE_WIDTH)
  {
    hide GutterWidth, Scale, TakeOverflow, Shrunk;
    var scale := Scale(laneCount - 1, available, base);
    ScaleRange(laneCount - 1, available, base);
    ScaledDown(base.laneWidth, scale, MIN_LANE_WIDTH);
    ScaledDown(base.lanePadding, scale, MIN_LANE_PADDING);
    ScaledDown(base.radius, scale, MIN_RADIUS);
    ScaledDown(base.lineWidth, scale, MIN_LINE_WIDTH);
    OverflowOnlyNarrows(laneCount, available, Scaled(scale, base));
  }

  /** The share of their base that a squeezed graph's parts get: what the column leaves of the
      natural width, at least what brings the spacing to six pixels, at most all of it. */
  lemma ShareTaken(laneCount: nat, available: real, base: Metrics, span: real)
    requires Drawable(base) && laneCount > 1
    requires span == 2.0 * base.lanePadding + 2.0 * base.radius + (laneCount - 1) as real * base.laneWidth
    ensures span > 0.0
    ensures var floored := if available / span < 6.0 / base.laneWidth then 6.0 / base.laneWidth else available / span;
            Scale(laneCount - 1, available, base) == if floored > 1.0 then 1.0 else floored
    ensures Squeezed(laneCount, available, base) <==> available < span
  {
    hide Scale, GutterWidth, Span;
    SpanIs(laneCount, base);
    GutterIsSpan(laneCount, base);
    ScaleIs(laneCount - 1, available, base);
  }

  /** A component: the share of its base, not below its floor. */
  predicate IsTaken(component: real, base: real, share: real, floor: real) {
    component == if base * share < floor then floor else base * share
  }

  /** Every component of a squeezed graph. Padding, circles and strokes take the share, down
      to their floors; the spacing takes it too, and then gives up what still overflows the
      column, down to its own floor of six. */
  lemma SqueezedComponents(laneCount: nat, available: real, base: Metrics, wanted: real)
    requires Drawable(base) && Squeezed(laneCount, available, base)
    requires IsTaken(wanted, base.laneWidth, Scale(laneCount - 1, available, base), 6.0)
    ensures var m, share := Compressed(laneCount, available, base), Scale(laneCount - 1, available, base);
            && m.rowHeight == base.rowHeight
            && IsTaken(m.lanePadding, base.lanePadding, share, 6.0)
            && IsTaken(m.radius, base.radius, share, 2.5)
            && IsTaken(m.lineWidth, base.lineWidth, share, 1.25)
            && var room := (available - 2.0 * m.lanePadding - 2.0 * m.radius) / (laneCount - 1) as real;
               m.laneWidth == if wanted <= room then wanted else if room < 6.0 then 6.0 else room
  {
    hide Scale, Shrunk, TakeOverflow, GutterWidth, IsTaken;
    var share := Scale(laneCount - 1, available, base);
    ShrunkIs(base.lanePadding, share, 6.0, Shrunk(base.lanePadding, share, 6.0));
    ShrunkIs(base.radius, share, 2.5, Shrunk(base.radius, share, 2.5));
    ShrunkIs(base.lineWidth, share, 1.25, Shrunk(base.lineWidth, share, 1.25));
    ShrunkIs(base.laneWidth, share, 6.0, wanted);
    AtLeastSix(base.laneWidth, share);
    SpacingTaken(laneCount, available, Scaled(share, base));
  }

  lemma AtLeastSix(x: real, share: real)
    ensures Shrunk(x, share, 6.0) >= 6.0
  {}

  lemma SpanIs(laneCount: nat, base: Metrics)
    requires Drawable(base) && laneCount > 1
    ensures Span(laneCount - 1, base) == 2.0 * base.lanePadding + 2.0 * base.radius + (laneCount - 1) as real * base.laneWidth
    ensures Span(laneCount - 1, base) > 0.0
  {
    assert (laneCount - 1) as real * base.laneWidth > 0.0;
  }

  lemma ScaleIs(last: nat, available: real, base: Metrics)
    requires Drawable(base) && last > 0 && Span(last, base) > 0.0
    ensures var ratio := available / Span(last, base);
            var floored := if ratio < 6.0 / base.laneWidth then 6.0 / base.laneWidth else ratio;
            Scale(last, available, base) == if floored > 1.0 then 1.0 else floored
  {}

  lemma ShrunkIs(x: real, share: real, floor: real, component: real)
    ensures IsTaken(component, x, share, floor) <==> component == Shrunk(x, share, floor)
  {}

  lemma OverflowIs(laneCount: nat, m: Metrics, available: real)
    requires laneCount > 1
    ensures GutterWidth(laneCount, m) - available
            == (laneCount - 1) as real * m.laneWidth - (available - 2.0 * m.lanePadding - 2.0 * m.radius)
  {
    GutterIsSpan(laneCount, m);
  }

  lemma SpacingTaken(laneCount: nat, available: real, first: Metrics)
    requires laneCount > 1 && first.laneWidth >= 6.0
    ensures var room := (available - 2.0 * first.lanePadding - 2.0 * first.radius) / (laneCount - 1) as real;
            TakeOverflow(laneCount, available, first)
            == first.(laneWidth := if first.laneWidth <= room then first.laneWidth else if room < 6.0 then 6.0 else room)
  {
    hide GutterWidth;
    OverflowIs(laneCount, first, available);
    var space := available - 2.0 * first.lanePadding - 2.0 * first.radius;
    SpacingLeft((laneCount - 1) as real, first.laneWidth, GutterWidth(laneCount, first) - available,
                space / (laneCount - 1) as real, space);
  }

  // ---------------------------------------------------------------- widening the column

  /** What the lane spacing of a squeezed graph comes to: the scaled spacing, or what the
      column leaves per lane, but never less than the floor. */
  lemma SqueezedSpacing(laneCount: nat, available: real, base: Metrics)
    requires Drawable(base) && Squeezed(laneCount, available, base) && base.laneWidth >= MIN_LANE_WIDTH
    ensures var last := (laneCount - 1) as real;
            var scale := Scale(laneCount - 1, available, base);
            var first := Scaled(scale, base);
            var room := (available - 2.0 * first.lanePadding - 2.0 * first.radius) / last;
            Compressed(laneCount, available, base).laneWidth
            == AtMost(first.laneWidth, AtLeast(room, MIN_LANE_WIDTH))
  {
    hide Scale, Shrunk;
    var last := (laneCount - 1) as real;
    var scale := Scale(laneCount - 1, available, base);
    var first := Scaled(scale, base);
    var overflow := GutterWidth(laneCount, first) - available;
    var room := (available - 2.0 * first.lanePadding - 2.0 * first.radius) / last;
    GutterIsSpan(laneCount, first);
    ScaleRange(laneCount - 1, available, base);
    ScaledDown(base.laneWidth, scale, MIN_LANE_WIDTH);
    SpacingLeft(last, first.laneWidth, overflow, room, available - 2.0 * first.lanePadding - 2.0 * first.radius);
  }

  lemma SpacingLeft(last: real, laneWidth: real, overflow: real, room: real, space: real)
    requires last > 0.0 && room == space / last && overflow == last * laneWidth - space
    ensures laneWidth - overflow / last == room
    ensures overflow > 0.0 <==> laneWidth > room
  {
    assert overflow / last == laneWidth - room by {
      assert last * (laneWidth - room) == last * laneWidth - space;
    }
    assert overflow == last * (laneWidth - room);
  }

  lemma ScaleGrows(last: nat, narrow: real, wide: real, base: Metrics)
    requires Drawable(base) && last > 0 && narrow <= wide
    ensures Scale(last, narrow, base) <= Scale(last, wide, base)
    ensures wide < Span(last, base) && base.laneWidth >= MIN_LANE_WIDTH ==>
              (Scale(last, wide, base) - Scale(last, narrow, base)) * Span(last, base) <= wide - narrow
  {
    var span, floor := Span(last, base), MIN_LANE_WIDTH / base.laneWidth;
    assert last as real * base.laneWidth > 0.0;
    DivideByPositive(narrow, wide, span);
    if wide < span && base.laneWidth >= MIN_LANE_WIDTH {
      assert floor <= 1.0;
      ClampDifference(narrow / span, wide / span, floor, span);
      assert (wide / span - narrow / span) * span == wide - narrow;
    }
  }

  lemma DivideByPositive(a: real, b: real, d: real)
    requires d > 0.0 && a <= b
    ensures a / d <= b / d
    ensures b < d ==> b / d < 1.0
  {
    assert b / d - a / d == (b - a) / d;
  }

  lemma ClampDifference(a: real, b: real, floor: real, d: real)
    requires d > 0.0 && a <= b
    ensures (AtLeast(b, floor) - AtLeast(a, floor)) * d <= (b - a) * d
  {
    assert AtLeast(b, floor) - AtLeast(a, floor) <= b - a;
  }

  lemma ShrunkGrowth(x: real, s: real, t: real, floor: real)
    requires x >= 0.0 && s <= t
    ensures 0.0 <= Shrunk(x, t, floor) - Shrunk(x, s, floor) <= x * (t - s)
  {
    var a, b := x * s, x * t;
    assert b - a == x * (t - s);
    assert x * (t - s) >= 0.0;
  }

  lemma Distribute(p: real, r: real, w: real, d: real)
    requires w >= 0.0 && d >= 0.0
    ensures 2.0 * (p * d) + 2.0 * (r * d) <= d * (2.0 * p + 2.0 * r + w)
  {
    assert w * d >= 0.0;
    assert d * (2.0 * p + 2.0 * r + w) == 2.0 * (p * d) + 2.0 * (r * d) + w * d;
  }

  function Insets(scale: real, base: Metrics): real {
    2.0 * Scaled(scale, base).lanePadding + 2.0 * Scaled(scale, base).radius
  }

  lemma InsetsGrowth(last: nat, base: Metrics, s: real, t: real)
    requires Drawable(base) && s <= t
    ensures Insets(t, base) - Insets(s, base) <= (t - s) * Span(last, base)
  {
    var p, r, w := base.lanePadding, base.radius, last as real * base.laneWidth;
    ShrunkGrowth(p, s, t, MIN_LANE_PADDING);
    ShrunkGrowth(r, s, t, MIN_RADIUS);
    assert w >= 0.0;
    Distribute(p, r, w, t - s);
    hide Shrunk;
  }

  lemma RoomGrows(last: nat, narrow: real, wide: real, base: Metrics)
    requires Drawable(base) && last > 0 && narrow <= wide < Span(last, base) && base.laneWidth >= MIN_LANE_WIDTH
    ensures narrow - Insets(Scale(last, narrow, base), base) <= wide - Insets(Scale(last, wide, base), base)
  {
    hide Scale, Insets, Span;
    ScaleGrows(last, narrow, wide, base);
    InsetsGrowth(last, base, Scale(last, narrow, base), Scale(last, wide, base));
  }

  lemma SqueezedSpacingGrows(laneCount: nat, narrow: real, wide: real, base: Metrics)
    requires Drawable(base) && base.laneWidth >= MIN_LANE_WIDTH
    requires narrow <= wide && Squeezed(laneCount, wide, base)
    ensures Compressed(laneCount, narrow, base).laneWidth <= Compressed(laneCount, wide, base).laneWidth
  {
    var last := laneCount - 1;
    GutterIsSpan(laneCount, base);
    SqueezedSpacing(laneCount, narrow, base);
    SqueezedSpacing(laneCount, wide, base);
    ScaleGrows(last, narrow, wide, base);
    RoomGrows(last, narrow, wide, base);
    var s, t := Scale(last, narrow, base), Scale(last, wide, base);
    ShrunkGrowth(base.laneWidth, s, t, MIN_LANE_WIDTH);
    hide Scale, Compressed, GutterWidth, Shrunk;
    DivideByPositive(narrow - Insets(s, base), wide - Insets(t, base), last as real);
  }

  /** Lane spacing never shrinks as the column widens, exactly for a base spacing that is
      not below the floor: a smaller one is raised while squeezed and drops back after. */
  lemma SpacingNeverShrinks(laneCount: nat, base: Metrics)
    requires Drawable(base) && laneCount > 1
    ensures base.laneWidth >= MIN_LANE_WIDTH
            <==> forall narrow: real, wide: real :: narrow <= wide ==>
                   Compressed(laneCount, narrow, base).laneWidth <= Compressed(laneCount, wide, base).laneWidth
  {
    hide Compressed, GutterWidth;
    if base.laneWidth >= MIN_LANE_WIDTH {
      forall narrow: real, wide: real | narrow <= wide
        ensures Compressed(laneCount, narrow, base).laneWidth <= Compressed(laneCount, wide, base).laneWidth
      {
        if Squeezed(laneCount, wide, base) {
          SqueezedSpacingGrows(laneCount, narrow, wide, base);
        } else {
          NotSqueezed(laneCount, wide, base);
          if Squeezed(laneCount, narrow, base) { SqueezeOnlyShrinks(laneCount, narrow, base); }
          else { NotSqueezed(laneCount, narrow, base); }
        }
      }
    } else {
      var gutter := GutterWidth(laneCount, base);
      SqueezeOnlyShrinks(laneCount, gutter - 1.0, base);
      NotSqueezed(laneCount, gutter, base);
      assert !(Compressed(laneCount, gutter - 1.0, base).laneWidth <= Compressed(laneCount, gutter, base).laneWidth);
    }
  }

  lemma NotSqueezed(laneCount: nat, available: real, base: Metrics)
    requires Drawable(base) && !Squeezed(laneCount, available, base)
    ensures Compressed(laneCount, available, base) == base
  {}
}
