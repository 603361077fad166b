/**
 * Properties of the SVG renderer: the theme overlay, the derived padding,
 * the fixed frame of the document, one group of shapes per event in event
 * order, the geometry of each group and the placement of events inside the
 * canvas.
 */
module SvgRendererProperties {
  import opened Wrappers
  import opened MarbleParser
  import opened SvgRenderer

  /** A given field replaces the default and an absent one keeps it; no overrides give the defaults. */
  lemma MergeThemeOverlays(o: ThemeOverrides)
    ensures MergeTheme(NoOverrides) == DefaultTheme
    ensures var t := MergeTheme(o);
      && (o.fontSize.Some? ==> t.fontSize == o.fontSize.value)
      && (o.fontSize.None? ==> t.fontSize == DefaultTheme.fontSize)
      && (o.lineWidth.Some? ==> t.lineWidth == o.lineWidth.value)
      && (o.lineWidth.None? ==> t.lineWidth == DefaultTheme.lineWidth)
      && (o.circleRadius.Some? ==> t.circleRadius == o.circleRadius.value)
      && (o.circleRadius.None? ==> t.circleRadius == DefaultTheme.circleRadius)
      && (o.padding.Some? ==> t.padding == o.padding.value)
      && (o.padding.None? ==> t.padding == DefaultTheme.padding)
      && (o.rowHeight.Some? ==> t.rowHeight == o.rowHeight.value)
      && (o.rowHeight.None? ==> t.rowHeight == DefaultTheme.rowHeight)
      && (o.timeScale.Some? ==> t.timeScale == o.timeScale.value)
      && (o.timeScale.None? ==> t.timeScale == DefaultTheme.timeScale)
      && (o.lineColor.Some? ==> t.lineColor == o.lineColor.value)
      && (o.lineColor.None? ==> t.lineColor == DefaultTheme.lineColor)
      && (o.backgroundColor.Some? ==> t.backgroundColor == o.backgroundColor.value)
      && (o.backgroundColor.None? ==> t.backgroundColor == DefaultTheme.backgroundColor)
      && (o.valueColor.Some? ==> t.valueColor == o.valueColor.value)
      && (o.valueColor.None? ==> t.valueColor == DefaultTheme.valueColor)
      && (o.errorColor.Some? ==> t.errorColor == o.errorColor.value)
      && (o.errorColor.None? ==> t.errorColor == DefaultTheme.errorColor)
      && (o.completeColor.Some? ==> t.completeColor == o.completeColor.value)
      && (o.completeColor.None? ==> t.completeColor == DefaultTheme.completeColor)
      && (o.textColor.Some? ==> t.textColor == o.textColor.value)
      && (o.textColor.None? ==> t.textColor == DefaultTheme.textColor)
      && t.circleStrokeWidth == o.circleStrokeWidth
      && t.circleStrokeColor == o.circleStrokeColor
  {
  }

  /**
   * The horizontal padding is radius + stroke + 0.6 x font size + 5, where a
   * zero or absent circle stroke width counts as the line width.
   */
  lemma HorizontalPaddingFallback(theme: SvgTheme)
    ensures HorizontalPadding(theme.(circleStrokeWidth := Some(0.0)))
         == HorizontalPadding(theme.(circleStrokeWidth := None))
         == theme.circleRadius + theme.lineWidth + theme.fontSize * 0.6 + 5.0
    ensures forall w :: w != 0.0 ==>
      HorizontalPadding(theme.(circleStrokeWidth := Some(w))) == theme.circleRadius + w + theme.fontSize * 0.6 + 5.0
  {
  }

  /**
   * A marble's stroke: an absent or empty circle stroke colour falls back to
   * the line colour, a zero or absent circle stroke width to the line width;
   * any other value is used as given.
   */
  lemma StrokeFallbacks(theme: SvgTheme)
    ensures StrokeColor(theme.(circleStrokeColor := None)) == theme.lineColor
    ensures StrokeColor(theme.(circleStrokeColor := Some(""))) == theme.lineColor
    ensures forall c: string :: c != "" ==> StrokeColor(theme.(circleStrokeColor := Some(c))) == c
    ensures StrokeWidth(theme.(circleStrokeWidth := None)) == theme.lineWidth
    ensures StrokeWidth(theme.(circleStrokeWidth := Some(0.0))) == theme.lineWidth
    ensures forall w: real :: w != 0.0 ==> StrokeWidth(theme.(circleStrokeWidth := Some(w))) == w
  {
  }

  /** With the default theme the padding is 23.4, the canvas 110 high and the baseline at 55. */
  lemma DefaultLayout(diagram: ParsedMarbleDiagram)
    ensures var l := ComputeLayout(diagram, MergeTheme(NoOverrides));
      && l.horizontalPadding == 23.4
      && l.height == 110.0
      && l.y == 55.0
      && l.width == diagram.duration as real * 3.0 + 46.8
  {
  }

  /** The geometry of the group drawn for one event, all centred on the event's point of the baseline. */
  lemma EventShapesGeometry(layout: Layout, e: MarbleEvent)
    ensures var shapes, x, y, th := EventShapes(layout, e), EventX(layout, e), layout.y, layout.theme;
      && (e.kind == Next ==>
            && |shapes| == (if Truthy(e.value) then 2 else 1)
            && shapes[0] == Circle(x, y, th.circleRadius, th.valueColor, StrokeColor(th), StrokeWidth(th))
            && (Truthy(e.value) ==>
                  shapes[1].Text? && shapes[1].x == x && shapes[1].centered && shapes[1].content == e.value.value))
      && (e.kind == Error ==>
            && |shapes| == 2
            && (forall l :: l in shapes ==>
                  (l.Line? && MidX(l) == x && MidY(l) == y
                   && l.x2 - l.x1 == 2.0 * th.circleRadius
                   && l.stroke == th.errorColor && l.strokeWidth == th.lineWidth * 1.5))
            && shapes[0].y2 - shapes[0].y1 == 2.0 * th.circleRadius
            && shapes[1].y2 - shapes[1].y1 == -2.0 * th.circleRadius)
      && (e.kind == Complete ==>
            && |shapes| == 1 && shapes[0].Line?
            && shapes[0].x1 == shapes[0].x2 == x && MidY(shapes[0]) == y
            && shapes[0].y2 - shapes[0].y1 == 3.0 * th.circleRadius
            && shapes[0].stroke == th.completeColor && shapes[0].strokeWidth == th.lineWidth * 2.0)
  {
  }

  lemma {:induction false} FlatMapAppend<A, B>(f: A -> seq<B>, a: seq<A>, b: seq<A>)
    ensures FlatMap(f, a + b) == FlatMap(f, a) + FlatMap(f, b)
    decreases |b|
  {
    if b == [] {
      assert a + b == a;
    } else {
      var b' := b[..|b| - 1];
      assert (a + b)[..|a + b| - 1] == a + b';
      FlatMapAppend(f, a, b');
    }
  }

  /** The shapes of two runs of events are those of the first followed by those of the second. */
  lemma ShapesAppend(layout: Layout, a: seq<MarbleEvent>, b: seq<MarbleEvent>)
    ensures Shapes(layout, a + b) == Shapes(layout, a) + Shapes(layout, b)
  {
    FlatMapAppend(e => EventShapes(layout, e), a, b);
  }

  /** Where the group of the `i`-th event starts in the shapes of all events. */
  function GroupStart(layout: Layout, events: seq<MarbleEvent>, i: nat): nat
    requires i <= |events|
  {
    |Shapes(layout, events[..i])|
  }

  /** The shapes consist of exactly one group per event, in event order. */
  lemma OneGroupPerEvent(layout: Layout, events: seq<MarbleEvent>, i: nat)
    requires i < |events|
    ensures GroupStart(layout, events, i + 1) == GroupStart(layout, events, i) + |EventShapes(layout, events[i])|
    ensures GroupStart(layout, events, i + 1) <= |Shapes(layout, events)|
    ensures Shapes(layout, events)[GroupStart(layout, events, i)..GroupStart(layout, events, i + 1)]
         == EventShapes(layout, events[i])
  {
    var pre, post := events[..i + 1], events[i + 1..];
    assert pre[..i] == events[..i];
    assert events == pre + post;
    ShapesAppend(layout, pre, post);
  }

  /** The number of elements the events contribute: one group after another. */
  lemma ShapesCount(layout: Layout, events: seq<MarbleEvent>)
    ensures GroupStart(layout, events, |events|) == |Shapes(layout, events)|
    ensures GroupStart(layout, events, 0) == 0
  {
    assert events[..|events|] == events;
  }

  /**
   * The document opens with the `svg` tag, the background and the baseline,
   * carries the name label iff a non-empty name is given, then the shapes of
   * the events, and closes with `</svg>`.
   */
  lemma RenderFrame(diagram: ParsedMarbleDiagram, options: RenderOptions)
    ensures var r, th := RenderSvg(diagram, options), MergeTheme(options.theme);
      var hp := HorizontalPadding(th);
      var w, h := diagram.duration as real * th.timeScale + 2.0 * hp, th.rowHeight + 2.0 * th.padding;
      var y := th.padding + th.rowHeight / 2.0;
      var named := if Truthy(options.name) then 1 else 0;
      && |r| == 4 + named + |Shapes(ComputeLayout(diagram, th), diagram.events)|
      && r[0] == SvgOpen(w, h)
      && r[1] == Rect(w, h, th.backgroundColor)
      && r[2] == Line(hp, y, hp + diagram.duration as real * th.timeScale, y, th.lineColor, th.lineWidth)
      && (Truthy(options.name) ==>
            r[3] == Text(hp, th.padding - 5.0, false, th.fontSize, th.textColor, options.name.value))
      && r[3 + named..|r| - 1] == Shapes(ComputeLayout(diagram, th), diagram.events)
      && r[|r| - 1] == SvgClose
  {
  }

  /**
   * The `i`-th event's group appears in the document, in event order, drawn
   * at `x = horizontalPadding + time * timeScale` on the baseline.
   */
  lemma EventDrawnInOrder(diagram: ParsedMarbleDiagram, options: RenderOptions, i: nat)
    requires i < |diagram.events|
    ensures var r, th := RenderSvg(diagram, options), MergeTheme(options.theme);
      var layout := ComputeLayout(diagram, th);
      var at := 3 + (if Truthy(options.name) then 1 else 0) + GroupStart(layout, diagram.events, i);
      var group := EventShapes(layout, diagram.events[i]);
      && at + |group| < |r|
      && r[at..at + |group|] == group
      && EventX(layout, diagram.events[i])
         == HorizontalPadding(th) + diagram.events[i].time as real * th.timeScale
  {
    var th := MergeTheme(options.theme);
    var layout := ComputeLayout(diagram, th);
    var pro, shapes := Prologue(layout, options.name), Shapes(layout, diagram.events);
    assert |pro| == 3 + (if Truthy(options.name) then 1 else 0);
    OneGroupPerEvent(layout, diagram.events, i);
    SliceOfMiddle(pro, shapes, [SvgClose], GroupStart(layout, diagram.events, i), GroupStart(layout, diagram.events, i + 1));
  }

  lemma SliceOfMiddle<T>(a: seq<T>, b: seq<T>, c: seq<T>, i: nat, j: nat)
    requires i <= j <= |b|
    ensures (a + b + c)[|a| + i..|a| + j] == b[i..j]
  {
  }

  /** An event inside the timeline is drawn on the baseline, between its two ends. */
  lemma EventOnBaseline(diagram: ParsedMarbleDiagram, theme: SvgTheme, e: MarbleEvent)
    requires theme.timeScale >= 0.0
    requires 0 <= e.time <= diagram.duration
    ensures var l := ComputeLayout(diagram, theme);
      l.startX <= EventX(l, e) <= l.endX
  {
    var ts := theme.timeScale;
    assert (diagram.duration - e.time) as real * ts >= 0.0;
    assert (diagram.duration - e.time) as real * ts == diagram.duration as real * ts - e.time as real * ts;
  }

  /**
   * With non-negative sizes, the marble of an event inside the timeline,
   * stroke included, lies inside the canvas with the label allowance and the
   * 5px buffer to spare on both sides.
   */
  lemma MarbleInsideCanvas(diagram: ParsedMarbleDiagram, theme: SvgTheme, e: MarbleEvent)
    requires theme.timeScale >= 0.0 && theme.fontSize >= 0.0
    requires 0 <= e.time <= diagram.duration
    ensures var l := ComputeLayout(diagram, theme);
      var reach := theme.circleRadius + StrokeWidth(theme);
      && EventX(l, e) - reach == theme.fontSize * 0.6 + 5.0 + e.time as real * theme.timeScale
      && EventX(l, e) - reach >= 5.0
      && EventX(l, e) + reach + theme.fontSize * 0.6 + 5.0 <= l.width
  {
    EventOnBaseline(diagram, theme, e);
    var ts := theme.timeScale;
    assert e.time as real * ts >= 0.0;
    assert (diagram.duration - e.time) as real * ts >= 0.0;
    assert (diagram.duration - e.time) as real * ts == diagram.duration as real * ts - e.time as real * ts;
  }

  /** An empty diagram without a name renders as just the frame, twice the padding wide. */
  lemma EmptyDiagramIsMinimal(o: ThemeOverrides)
    ensures var th := MergeTheme(o);
      var hp, h := HorizontalPadding(th), th.rowHeight + 2.0 * th.padding;
      var y := th.padding + th.rowHeight / 2.0;
      RenderSvg(ParsedMarbleDiagram([], 0), RenderOptions(o, None))
      == [SvgOpen(2.0 * hp, h), Rect(2.0 * hp, h, th.backgroundColor),
          Line(hp, y, hp, y, th.lineColor, th.lineWidth), SvgClose]
  {
  }
}
